/**
 The mailbox wire format of drive-wire: numbered frames, batches of frames that
 share one Drive file, and the byte codec of both.
 */
module Wire {
  import opened Prelude

  type SessionId = s: seq<byte> | |s| == 16
    witness [0, 0, 0, 0, 0, 0, 0, 0, 0, 0, 0, 0, 0, 0, 0, 0]

  datatype FrameKind = Hello | Connect | Data | Eof | Close | Error

  datatype WireFrame = WireFrame(version: byte, kind: FrameKind, sid: SessionId, seqno: u64, payload: seq<byte>)

  datatype Batch = Batch(frames: seq<WireFrame>)

  const WIRE_VERSION: byte := 1
  const HEADER_LEN := 30
  const MAX_PAYLOAD := 4 * 1024 * 1024
  const MAX_BATCH_FRAMES := 255
  const BATCH_MAGIC: seq<byte> := [0x52, 0x47, 0x32, 0x42]
  const BATCH_HEADER_LEN := 5
  const BATCH_PER_FRAME_OVERHEAD := 4

  function BuildWireFrame(kind: FrameKind, sid: SessionId, seqno: u64, payload: seq<byte>): WireFrame {
    WireFrame(WIRE_VERSION, kind, sid, seqno, payload)
  }

  // ---------- Fixed-width integers ----------

  function Pow256(width: nat): (p: nat)
    ensures 0 < p
  {
    if width == 0 then 1 else 256 * Pow256(width - 1)
  }

  /** The low `width` bytes of n, most significant first. */
  function BigEndian(n: nat, width: nat): (bs: seq<byte>)
    ensures |bs| == width
  {
    if width == 0 then [] else BigEndian(n / 256, width - 1) + [n % 256]
  }

  function BigEndianValue(bs: seq<byte>): nat {
    if bs == [] then 0 else BigEndianValue(bs[..|bs| - 1]) * 256 + bs[|bs| - 1]
  }

  /** Writing at a width and reading back loses exactly what does not fit in that width. */
  lemma {:induction false} BigEndianRoundTrip(n: nat, width: nat)
    ensures BigEndianValue(BigEndian(n, width)) == n % Pow256(width)
  {
    if width != 0 {
      var bs := BigEndian(n, width);
      assert bs[..|bs| - 1] == BigEndian(n / 256, width - 1);
      BigEndianRoundTrip(n / 256, width - 1);
      SplitModulus(n, Pow256(width - 1));
    }
  }

  lemma SplitModulus(n: nat, m: nat)
    requires 0 < m
    ensures n % (256 * m) == (n / 256) % m * 256 + n % 256
  {
    var q, r := n / 256, n % 256;
    var k, s := q / m, q % m;
    assert n == (256 * m) * k + (256 * s + r) by {
      assert q == m * k + s;
      assert n == 256 * q + r;
      assert 256 * (m * k + s) == (256 * m) * k + 256 * s;
    }
    DivModUnique(n, 256 * m, k, 256 * s + r);
  }

  lemma PowersOf256()
    ensures Pow256(1) == 0x100 && Pow256(2) == 0x1_0000
    ensures Pow256(4) == 0x1_0000_0000 && Pow256(8) == U64_LIMIT
  {
    assert Pow256(2) == 256 * Pow256(1);
    assert Pow256(3) == 256 * Pow256(2);
    assert Pow256(4) == 256 * Pow256(3);
    assert Pow256(5) == 256 * Pow256(4);
    assert Pow256(6) == 256 * Pow256(5);
    assert Pow256(7) == 256 * Pow256(6);
    assert Pow256(8) == 256 * Pow256(7);
  }

  lemma BigEndianFits(n: nat, width: nat)
    requires n < Pow256(width)
    ensures BigEndianValue(BigEndian(n, width)) == n
  {
    BigEndianRoundTrip(n, width);
    DivModUnique(n, Pow256(width), 0, n);
  }

  // ---------- Frame codec ----------

  datatype DecodeError =
    | TooShort | UnsupportedVersion | UnknownKind | PayloadTooLarge | PayloadTruncated
    | BatchBadMagic | BatchBadCount | BatchFrameTruncated | BatchFrameDecode(inner: DecodeError) | BatchTrailingBytes

  datatype Decoded<+T> = Ok(value: T) | Err(error: DecodeError)

  function KindByte(k: FrameKind): byte {
    match k
    case Hello => 1
    case Connect => 2
    case Data => 3
    case Eof => 4
    case Close => 5
    case Error => 6
  }

  function KindFromByte(b: byte): Option<FrameKind> {
    if b == 1 then Some(Hello)
    else if b == 2 then Some(Connect)
    else if b == 3 then Some(Data)
    else if b == 4 then Some(Eof)
    else if b == 5 then Some(Close)
    else if b == 6 then Some(Error)
    else None
  }

  function EncodeFrame(f: WireFrame): (bs: seq<byte>)
    ensures |bs| == HEADER_LEN + |f.payload|
  {
    [f.version] + [KindByte(f.kind)] + f.sid + BigEndian(f.seqno, 8) + BigEndian(|f.payload|, 4) + f.payload
  }

  function DecodeFrame(input: seq<byte>): Decoded<WireFrame> {
    if |input| < HEADER_LEN then Err(TooShort)
    else if input[0] != WIRE_VERSION then Err(UnsupportedVersion)
    else
      var kind := KindFromByte(input[1]);
      if kind == None then Err(UnknownKind)
      else
        var len := BigEndianValue(input[26..30]);
        if len > MAX_PAYLOAD then Err(PayloadTooLarge)
        else if |input| - HEADER_LEN < len then Err(PayloadTruncated)
        else
          SeqnoInRange(input[18..26]);
          Ok(WireFrame(input[0], kind.value, input[2..18], BigEndianValue(input[18..26]), input[30..30 + len]))
  }

  lemma {:induction false} BigEndianBound(bs: seq<byte>)
    ensures BigEndianValue(bs) < Pow256(|bs|)
  {
    if bs != [] {
      BigEndianBound(bs[..|bs| - 1]);
    }
  }

  lemma SeqnoInRange(bs: seq<byte>)
    requires |bs| == 8
    ensures BigEndianValue(bs) < U64_LIMIT
  {
    BigEndianBound(bs);
    PowersOf256();
  }

  predicate Encodable(f: WireFrame) { f.version == WIRE_VERSION && |f.payload| <= MAX_PAYLOAD }

  /**
   A frame survives the wire, whatever bytes stand behind it, exactly when it carries
   this build's version and a payload within the cap.
   */
  lemma FrameRoundTrip(f: WireFrame, trailing: seq<byte>)
    ensures DecodeFrame(EncodeFrame(f) + trailing) == Ok(f) <==> Encodable(f)
  {
    FrameFields(f, trailing);
    PowersOf256();
    BigEndianFits(f.seqno, 8);
    BigEndianRoundTrip(|f.payload|, 4);
    if |f.payload| <= MAX_PAYLOAD {
      BigEndianFits(|f.payload|, 4);
    }
  }

  /** The fields of an encoded frame, where the decoder reads them. */
  lemma FrameFields(f: WireFrame, trailing: seq<byte>)
    ensures var bs := EncodeFrame(f) + trailing;
            && bs[0] == f.version && bs[1] == KindByte(f.kind) && bs[2..18] == f.sid
            && bs[18..26] == BigEndian(f.seqno, 8) && bs[26..30] == BigEndian(|f.payload|, 4)
            && bs[30..30 + |f.payload|] == f.payload
  {
    var bs := EncodeFrame(f) + trailing;
    assert bs[0] == f.version && bs[1] == KindByte(f.kind);
    assert bs[2..18] == f.sid;
    assert bs[18..26] == BigEndian(f.seqno, 8);
    assert bs[26..30] == BigEndian(|f.payload|, 4);
    assert bs[30..30 + |f.payload|] == f.payload;
  }

  // ---------- Batch codec ----------

  function EncodeFrames(fs: seq<WireFrame>): seq<byte> {
    if fs == [] then []
    else BigEndian(|EncodeFrame(fs[0])|, 4) + EncodeFrame(fs[0]) + EncodeFrames(fs[1..])
  }

  /** The count field is one byte, so a longer batch wraps it. */
  function EncodeBatch(b: Batch): seq<byte> {
    BATCH_MAGIC + [|b.frames| % 256] + EncodeFrames(b.frames)
  }

  /** Decode `count` length-prefixed frames; also return the bytes after them. */
  function DecodeFrames(cursor: seq<byte>, count: nat): Decoded<(seq<WireFrame>, seq<byte>)>
    decreases count
  {
    if count == 0 then Ok(([], cursor))
    else if |cursor| < BATCH_PER_FRAME_OVERHEAD then Err(BatchFrameTruncated)
    else
      var len := BigEndianValue(cursor[..4]);
      if |cursor| - 4 < len then Err(BatchFrameTruncated)
      else
        match DecodeFrame(cursor[4..4 + len])
        case Err(e) => Err(BatchFrameDecode(e))
        case Ok(f) =>
          After([f], DecodeFrames(cursor[4 + len..], count - 1))
  }

  /** The result of a decode whose first frames were already read. */
  function After(frames: seq<WireFrame>, rest: Decoded<(seq<WireFrame>, seq<byte>)>): Decoded<(seq<WireFrame>, seq<byte>)> {
    match rest
    case Err(e) => Err(e)
    case Ok(done) => Ok((frames + done.0, done.1))
  }

  function DecodeBatch(input: seq<byte>): Decoded<Batch> {
    if |input| < BATCH_HEADER_LEN then Err(TooShort)
    else if input[..4] != BATCH_MAGIC then Err(BatchBadMagic)
    else
      var count := input[4];
      if count == 0 || count > MAX_BATCH_FRAMES then Err(BatchBadCount)
      else
        match DecodeFrames(input[5..], count)
        case Err(e) => Err(e)
        case Ok(done) => if done.1 != [] then Err(BatchTrailingBytes) else Ok(Batch(done.0))
  }

  /** `Batch::decode` with its moving cursor. */
  method ReadBatch(input: seq<byte>) returns (r: Decoded<Batch>)
    ensures r == DecodeBatch(input)
  {
    if |input| < BATCH_HEADER_LEN {
      return Err(TooShort);
    }
    if input[..4] != BATCH_MAGIC {
      return Err(BatchBadMagic);
    }
    var count := input[4];
    if count == 0 || count > MAX_BATCH_FRAMES {
      return Err(BatchBadCount);
    }
    var cursor := input[5..];
    var frames: seq<WireFrame> := [];
    var index := 0;
    AfterNothing(DecodeFrames(cursor, count));
    while index < count
      invariant 0 <= index <= count
      invariant DecodeFrames(input[5..], count) == After(frames, DecodeFrames(cursor, count - index))
    {
      if |cursor| < BATCH_PER_FRAME_OVERHEAD {
        return Err(BatchFrameTruncated);
      }
      var len := BigEndianValue(cursor[..4]);
      if |cursor| - 4 < len {
        return Err(BatchFrameTruncated);
      }
      var decoded := DecodeFrame(cursor[4..4 + len]);
      if decoded.Err? {
        return Err(BatchFrameDecode(decoded.error));
      }
      AfterOne(frames, decoded.value, DecodeFrames(cursor[4 + len..], count - index - 1));
      cursor := cursor[4 + len..];
      frames := frames + [decoded.value];
      index := index + 1;
    }
    if cursor != [] {
      return Err(BatchTrailingBytes);
    }
    assert frames + [] == frames;
    return Ok(Batch(frames));
  }

  lemma AfterNothing(rest: Decoded<(seq<WireFrame>, seq<byte>)>)
    ensures After([], rest) == rest
  {
    if rest.Ok? {
      assert [] + rest.value.0 == rest.value.0;
    }
  }

  lemma AfterOne(frames: seq<WireFrame>, f: WireFrame, rest: Decoded<(seq<WireFrame>, seq<byte>)>)
    ensures After(frames, After([f], rest)) == After(frames + [f], rest)
  {
    if rest.Ok? {
      assert frames + ([f] + rest.value.0) == frames + [f] + rest.value.0;
    }
  }

  /** The first frame of an encoded list, as the decoder slices it. */
  lemma EncodedHead(fs: seq<WireFrame>)
    requires fs != [] && Encodable(fs[0])
    ensures var bs, len := EncodeFrames(fs), |EncodeFrame(fs[0])|;
            && 4 + len <= |bs|
            && BigEndianValue(bs[..4]) == len
            && DecodeFrame(bs[4..4 + len]) == Ok(fs[0])
            && bs[4 + len..] == EncodeFrames(fs[1..])
  {
    var body, bs := EncodeFrame(fs[0]), EncodeFrames(fs);
    assert bs[..4] == BigEndian(|body|, 4);
    assert bs[4..4 + |body|] == body;
    assert bs[4 + |body|..] == EncodeFrames(fs[1..]);
    assert BigEndianValue(BigEndian(|body|, 4)) == |body| by {
      PowersOf256();
      BigEndianFits(|body|, 4);
    }
    FrameRoundTrip(fs[0], []);
    assert body + [] == body;
  }

  /** Decoding the head of an encoded list, given what decoding its tail yields. */
  lemma DecodeCons(fs: seq<WireFrame>, count: nat, done: seq<WireFrame>, left: seq<byte>)
    requires fs != [] && Encodable(fs[0]) && 0 < count
    requires DecodeFrames(EncodeFrames(fs[1..]), count - 1) == Ok((done, left))
    ensures DecodeFrames(EncodeFrames(fs), count) == Ok(([fs[0]] + done, left))
  {
    EncodedHead(fs);
    DecodeFramesStep(EncodeFrames(fs), count, |EncodeFrame(fs[0])|, fs[0], done, left);
  }

  lemma DecodeFramesStep(cursor: seq<byte>, count: nat, len: nat, f: WireFrame, done: seq<WireFrame>, left: seq<byte>)
    requires 0 < count && 4 + len <= |cursor|
    requires BigEndianValue(cursor[..4]) == len && DecodeFrame(cursor[4..4 + len]) == Ok(f)
    requires DecodeFrames(cursor[4 + len..], count - 1) == Ok((done, left))
    ensures DecodeFrames(cursor, count) == Ok(([f] + done, left))
  {}

  /** Reading fewer frames than were written stops right after the ones read. */
  lemma {:induction false} DecodeFramesPrefix(fs: seq<WireFrame>, count: nat)
    requires forall i :: 0 <= i < |fs| ==> Encodable(fs[i])
    requires count <= |fs|
    ensures DecodeFrames(EncodeFrames(fs), count) == Ok((fs[..count], EncodeFrames(fs[count..])))
  {
    if count == 0 {
      assert fs[0..] == fs && fs[..0] == [];
    } else {
      var rest := fs[1..];
      assert rest[count - 1..] == fs[count..] && [fs[0]] + rest[..count - 1] == fs[..count];
      DecodeFramesPrefix(rest, count - 1);
      DecodeCons(fs, count, rest[..count - 1], EncodeFrames(rest[count - 1..]));
    }
  }

  lemma EncodeFramesNonempty(fs: seq<WireFrame>)
    requires fs != []
    ensures EncodeFrames(fs) != []
  {
    assert |BigEndian(|EncodeFrame(fs[0])|, 4)| == 4;
  }

  /** No frame is longer than the list it is part of. */
  lemma {:induction false} FrameWithin(fs: seq<WireFrame>, i: nat)
    requires i < |fs|
    ensures 34 + |fs[i].payload| <= |EncodeFrames(fs)|
  {
    assert |BigEndian(|EncodeFrame(fs[0])|, 4)| == 4;
    assert |EncodeFrame(fs[0])| == HEADER_LEN + |fs[0].payload|;
    if i > 0 {
      FrameWithin(fs[1..], i - 1);
    }
  }

  lemma DecodeBatchHeader(count: byte, body: seq<byte>)
    ensures DecodeBatch(BATCH_MAGIC + [count] + body) ==
            if count == 0 then Err(BatchBadCount)
            else match DecodeFrames(body, count)
                 case Err(e) => Err(e)
                 case Ok(done) => if done.1 != [] then Err(BatchTrailingBytes) else Ok(Batch(done.0))
  {
    var input := BATCH_MAGIC + [count] + body;
    assert input[..4] == BATCH_MAGIC && input[4] == count && input[5..] == body;
  }

  lemma DecodeEncoded(fs: seq<WireFrame>, count: byte)
    requires forall i :: 0 <= i < |fs| ==> Encodable(fs[i])
    requires count <= |fs|
    ensures DecodeBatch(BATCH_MAGIC + [count] + EncodeFrames(fs)) ==
            if count == 0 then Err(BatchBadCount)
            else if count < |fs| then Err(BatchTrailingBytes)
            else Ok(Batch(fs))
  {
    DecodeBatchHeader(count, EncodeFrames(fs));
    DecodeFramesPrefix(fs, count);
    if count < |fs| {
      EncodeFramesNonempty(fs[count..]);
    } else {
      assert fs[count..] == [] && fs[..count] == fs;
    }
  }

  /**
   A batch of encodable frames survives the wire exactly when its count fits the
   one-byte field: the empty batch is refused, and one of 256 frames or more
   announces a wrapped count and is refused whole.
   */
  lemma BatchRoundTrip(b: Batch)
    requires forall i :: 0 <= i < |b.frames| ==> Encodable(b.frames[i])
    ensures DecodeBatch(EncodeBatch(b)) == Ok(b) <==> 1 <= |b.frames| <= MAX_BATCH_FRAMES
    ensures |b.frames| % 256 == 0 ==> DecodeBatch(EncodeBatch(b)) == Err(BatchBadCount)
    ensures |b.frames| > MAX_BATCH_FRAMES && |b.frames| % 256 != 0 ==>
              DecodeBatch(EncodeBatch(b)) == Err(BatchTrailingBytes)
  {
    DecodeEncoded(b.frames, |b.frames| % 256);
  }
}
