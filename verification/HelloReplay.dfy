/**
 Reading the client's first TLS record and replaying it: whatever the chunking of
 the client's stream, nothing read ahead is lost.
 */
module HelloReplay {
  import opened Prelude
  import opened ClientHello

  const MAX_FIRST := 32 * 1024
  const READ_SIZE := 4096

  /** What one read of the client socket yields. */
  datatype Read = Chunk(bytes: seq<byte>) | EndOfFile | IoError | Stalled

  datatype ReadError = UnexpectedEof | NotTls | TooLarge | Io | TimedOut

  datatype RecordResult = Record(bytes: seq<byte>) | Failed(error: ReadError)

  /** What the reader makes of the bytes gathered so far. */
  datatype Verdict = More | Complete | RejectNotTls | RejectTooLarge

  function RecordEnd(buf: seq<byte>): nat
    requires |buf| >= 5
  {
    5 + U16(buf[3], buf[4])
  }

  function Judge(buf: seq<byte>): Verdict {
    if |buf| < 5 then More
    else if buf[0] != 0x16 then RejectNotTls
    else if |buf| >= RecordEnd(buf) then Complete
    else if |buf| > MAX_FIRST then RejectTooLarge
    else More
  }

  ghost predicate ValidReads(inputs: seq<Read>) {
    forall k {:trigger inputs[k]} :: 0 <= k < |inputs| ==> inputs[k].Chunk? ==> 1 <= |inputs[k].bytes| <= READ_SIZE
  }

  /** The bytes that a sequence of reads yields. */
  function Bytes(inputs: seq<Read>): seq<byte> {
    if inputs == [] then []
    else
      var last := inputs[|inputs| - 1];
      Bytes(inputs[..|inputs| - 1]) + if last.Chunk? then last.bytes else []
  }

  /** The first m reads are data, and the record is complete after the m-th and not before. */
  ghost predicate AcceptedAt(inputs: seq<Read>, m: nat) {
    && m <= |inputs| && Judge(Bytes(inputs[..m])) == Complete
    && (forall k {:trigger inputs[k]} :: 0 <= k < m ==> inputs[k].Chunk?)
    && (forall k {:trigger inputs[..k]} :: 0 <= k < m ==> Judge(Bytes(inputs[..k])) == More)
  }

  ghost predicate Accepted(inputs: seq<Read>) { exists m {:trigger AcceptedAt(inputs, m)} :: AcceptedAt(inputs, m) }

  /** The first m reads are data, and more was wanted after each. */
  ghost predicate Waiting(inputs: seq<Read>, m: nat) {
    && m <= |inputs|
    && (forall k {:trigger inputs[k]} :: 0 <= k < m ==> inputs[k].Chunk?)
    && (forall k {:trigger inputs[..k]} :: 0 <= k <= m ==> Judge(Bytes(inputs[..k])) == More)
  }

  /** Nothing is accepted once the stream ends, breaks, stalls or is rejected. */
  lemma Stopped(inputs: seq<Read>, m: nat)
    requires Waiting(inputs, m)
    requires m == |inputs| || !inputs[m].Chunk? || Judge(Bytes(inputs[..m + 1])) in {RejectNotTls, RejectTooLarge}
    ensures !Accepted(inputs)
  {
    forall n: nat | AcceptedAt(inputs, n)
      ensures n > m
    {}
  }

  /** How reading ends: `r` after exactly `used` reads. */
  ghost predicate EndsWith(inputs: seq<Read>, used: nat, r: RecordResult) {
    match r
    case Record(bytes) => AcceptedAt(inputs, used) && bytes == Bytes(inputs[..used])
    case Failed(error) =>
      if error == TimedOut && used == |inputs| && Waiting(inputs, used) then true
      else
        && 0 < used <= |inputs| && Waiting(inputs, used - 1)
        && match error
           case TimedOut => inputs[used - 1] == Stalled
           case UnexpectedEof => inputs[used - 1] == EndOfFile
           case Io => inputs[used - 1] == IoError
           case NotTls => inputs[used - 1].Chunk? && Judge(Bytes(inputs[..used])) == RejectNotTls
           case TooLarge => inputs[used - 1].Chunk? && Judge(Bytes(inputs[..used])) == RejectTooLarge
  }

  /** Every sequence of reads ends in one way only, and with a record exactly when one is accepted. */
  lemma OneEnding(inputs: seq<Read>, used: nat, r: RecordResult, used': nat, r': RecordResult)
    requires EndsWith(inputs, used, r) && EndsWith(inputs, used', r')
    ensures used == used' && r == r'
    ensures r.Record? <==> Accepted(inputs)
  {
    if r.Failed? {
      Stopped(inputs, if used == |inputs| && Waiting(inputs, used) then used else used - 1);
    }
    if r'.Failed? {
      Stopped(inputs, if used' == |inputs| && Waiting(inputs, used') then used' else used' - 1);
    }
    if used < used' {
      EarlierEnding(inputs, used, r, used', r');
    } else if used' < used {
      EarlierEnding(inputs, used', r', used, r);
    }
  }

  lemma EarlierEnding(inputs: seq<Read>, used: nat, r: RecordResult, used': nat, r': RecordResult)
    requires EndsWith(inputs, used, r) && EndsWith(inputs, used', r')
    ensures used >= used'
  {}

  /**
   `read_first_tls_record`. `used` is the number of reads performed; running out of
   reads stands for a client that stalls until the deadline.
   */
  method ReadFirstRecord(inputs: seq<Read>) returns (r: RecordResult, used: nat)
    requires ValidReads(inputs)
    ensures EndsWith(inputs, used, r)
    ensures used <= MAX_FIRST + 1
    ensures r.Record? ==> |r.bytes| <= MAX_FIRST + READ_SIZE
  {
    var buf: seq<byte> := [];
    used := 0;
    assert inputs[..0] == [];
    while used < |inputs|
      invariant used <= |inputs| && buf == Bytes(inputs[..used]) && used <= |buf| <= MAX_FIRST
      invariant Waiting(inputs, used)
    {
      var read := inputs[used];
      BytesNext(inputs, used);
      used := used + 1;
      match read {
        case Chunk(bytes) => buf := buf + bytes;
        case EndOfFile => return Failed(UnexpectedEof), used;
        case IoError => return Failed(Io), used;
        case Stalled => return Failed(TimedOut), used;
      }
      match Judge(buf) {
        case More => {}
        case Complete => return Record(buf), used;
        case RejectNotTls => return Failed(NotTls), used;
        case RejectTooLarge => return Failed(TooLarge), used;
      }
      RecordEndBound(buf);
      WaitingNext(inputs, used - 1);
    }
    return Failed(TimedOut), used;
  }

  /** The record that the bytes start with: its length is in bytes 3 and 4. */
  function RecordLength(got: seq<byte>): nat
    requires |got| >= 5
  {
    5 + (got[3] as int) * 256 + (got[4] as int)
  }

  /** More is wanted: not yet a header, or a handshake record that is not yet complete and not yet too long. */
  predicate WantsMore(got: seq<byte>) {
    |got| < 5 || (got[0] == 0x16 && |got| < RecordLength(got) && |got| <= 32768)
  }

  /** The ending, read off the bytes. */
  lemma EndingOnBytes(inputs: seq<Read>, used: nat, r: RecordResult)
    requires EndsWith(inputs, used, r)
    ensures var got := Bytes(inputs[..used]);
            && (r.Record? ==> |got| >= 5 && got[0] == 0x16 && RecordLength(got) <= |got|)
            && (r == Failed(NotTls) ==> |got| >= 5 && got[0] != 0x16)
            && (r == Failed(TooLarge) ==> |got| > 32768 && got[0] == 0x16 && |got| < RecordLength(got))
    ensures forall k {:trigger inputs[..k]} :: 0 <= k < used ==> WantsMore(Bytes(inputs[..k]))
  {
    forall k | 0 <= k < used
      ensures WantsMore(Bytes(inputs[..k]))
    {
      assert Judge(Bytes(inputs[..k])) == More;
    }
  }

  /** A stream of five bytes or more that does not open with a handshake record is refused as such, however it arrives. */
  lemma WrongTypeRefused(inputs: seq<Read>, stream: seq<byte>, used: nat, r: RecordResult)
    requires Chunks(inputs, stream) && |stream| >= 5 && stream[0] != 0x16 && EndsWith(inputs, used, r)
    ensures r == Failed(NotTls)
  {
    EndingOnBytes(inputs, used, r);
    BytesPrefix(inputs, used);
    assert inputs[..|inputs|] == inputs;
  }

  lemma BytesNext(inputs: seq<Read>, k: nat)
    requires k < |inputs|
    ensures Bytes(inputs[..k + 1]) == Bytes(inputs[..k]) + if inputs[k].Chunk? then inputs[k].bytes else []
  {
    assert inputs[..k + 1][..k] == inputs[..k] && inputs[..k + 1][k] == inputs[k];
  }

  lemma WaitingNext(inputs: seq<Read>, m: nat)
    requires Waiting(inputs, m) && m < |inputs| && inputs[m].Chunk? && Judge(Bytes(inputs[..m + 1])) == More
    ensures Waiting(inputs, m + 1)
  {}

  lemma RecordEndBound(buf: seq<byte>)
    requires Judge(buf) == More
    ensures |buf| <= MAX_FIRST
  {}

  // ---------- When chunking cannot matter ----------

  function FirstRecordEnd(stream: seq<byte>): nat
    requires |stream| >= 5
  {
    5 + U16(stream[3], stream[4])
  }

  /** Cutting a stream into one-byte reads. */
  function OneByOne(stream: seq<byte>): (inputs: seq<Read>)
    ensures |inputs| == |stream| && ValidReads(inputs)
    ensures forall k {:trigger inputs[k]} :: 0 <= k < |inputs| ==> inputs[k] == Chunk([stream[k]])
  {
    if stream == [] then []
    else OneByOne(stream[..|stream| - 1]) + [Chunk([stream[|stream| - 1]])]
  }

  lemma {:induction false} OneByOneBytes(stream: seq<byte>, k: nat)
    requires k <= |stream|
    ensures Bytes(OneByOne(stream)[..k]) == stream[..k]
  {
    var inputs := OneByOne(stream);
    if k > 0 {
      OneByOneBytes(stream, k - 1);
      assert inputs[..k][..k - 1] == inputs[..k - 1] && inputs[..k][k - 1] == Chunk([stream[k - 1]]);
      assert stream[..k - 1] + [stream[k - 1]] == stream[..k];
    }
  }

  /** Some way for the client's stream to arrive. */
  ghost predicate Chunks(inputs: seq<Read>, stream: seq<byte>) {
    && ValidReads(inputs) && Bytes(inputs) == stream
    && forall k {:trigger inputs[k]} :: 0 <= k < |inputs| ==> inputs[k].Chunk?
  }

  ghost predicate AlwaysAccepted(stream: seq<byte>) {
    forall inputs {:trigger Chunks(inputs, stream)} :: Chunks(inputs, stream) ==> Accepted(inputs)
  }

  lemma {:induction false} BytesPrefix(inputs: seq<Read>, k: nat)
    requires k <= |inputs|
    ensures Bytes(inputs[..k]) <= Bytes(inputs)
  {
    if k < |inputs| {
      var front := inputs[..|inputs| - 1];
      BytesPrefix(front, k);
      assert front[..k] == inputs[..k];
    } else {
      assert inputs[..k] == inputs;
    }
  }

  /** While the record is short enough, a prefix of the stream is complete or wants more. */
  lemma PrefixVerdict(stream: seq<byte>, prefix: seq<byte>)
    requires |stream| >= 5 && stream[0] == 0x16 && prefix <= stream && FirstRecordEnd(stream) <= MAX_FIRST + 1
    ensures Judge(prefix) == if |prefix| < FirstRecordEnd(stream) then More else Complete
  {
    if |prefix| >= 5 {
      assert RecordEnd(prefix) == FirstRecordEnd(stream);
    }
  }

  lemma {:induction false} FirstComplete(inputs: seq<Read>, stream: seq<byte>, m: nat) returns (at: nat)
    requires Chunks(inputs, stream) && |stream| >= 5 && stream[0] == 0x16
    requires FirstRecordEnd(stream) <= MAX_FIRST + 1
    requires m <= |inputs| && Judge(Bytes(inputs[..m])) == Complete
    ensures AcceptedAt(inputs, at)
  {
    at := m;
    while exists k: nat {:trigger inputs[..k]} :: k < at && Judge(Bytes(inputs[..k])) != More
      invariant at <= |inputs| && Judge(Bytes(inputs[..at])) == Complete
      decreases at
    {
      var k: nat :| k < at && Judge(Bytes(inputs[..k])) != More;
      BytesPrefix(inputs, k);
      PrefixVerdict(stream, Bytes(inputs[..k]));
      at := k;
    }
  }

  /**
   A stream that opens with a complete handshake record is accepted however it
   arrives, exactly when that record ends within 32769 bytes; a longer one fails
   at least when it arrives byte by byte.
   */
  lemma EveryChunkingAccepts(stream: seq<byte>)
    requires |stream| >= 5 && stream[0] == 0x16 && FirstRecordEnd(stream) <= |stream|
    ensures AlwaysAccepted(stream) <==> FirstRecordEnd(stream) <= MAX_FIRST + 1
  {
    if FirstRecordEnd(stream) <= MAX_FIRST + 1 {
      forall inputs | Chunks(inputs, stream)
        ensures Accepted(inputs)
      {
        assert inputs[..|inputs|] == inputs;
        PrefixVerdict(stream, stream);
        var at := FirstComplete(inputs, stream, |inputs|);
      }
    } else {
      var slow := OneByOne(stream);
      OneByOneBytes(stream, |stream|);
      assert slow[..|slow|] == slow && stream[..|stream|] == stream;
      assert Chunks(slow, stream);
      LongRecordRejected(stream);
      assert !Accepted(slow);
    }
  }

  /** Byte by byte, a longer record is rejected once 32769 bytes are in. */
  lemma LongRecordRejected(stream: seq<byte>)
    requires |stream| >= 5 && stream[0] == 0x16 && MAX_FIRST + 1 < FirstRecordEnd(stream) <= |stream|
    ensures !exists m {:trigger AcceptedAt(OneByOne(stream), m)} :: AcceptedAt(OneByOne(stream), m)
  {
    var slow, k := OneByOne(stream), MAX_FIRST + 1;
    OneByOneBytes(stream, k);
    assert RecordEnd(stream[..k]) == FirstRecordEnd(stream);
    forall m: nat | m <= |stream| && Judge(stream[..m]) == Complete
      ensures m > k
    {
      assert RecordEnd(stream[..m]) == FirstRecordEnd(stream);
    }
    forall m: nat | m <= |stream|
      ensures Bytes(slow[..m]) == stream[..m]
    {
      OneByOneBytes(stream, m);
    }
    assert Judge(Bytes(slow[..k])) == RejectTooLarge;
  }

  // ---------- The replaying stream ----------

  /** `inner` is what the wrapped socket has yet to deliver. */
  class PrefacedStream {
    const preface: seq<byte>
    var pos: nat
    var inner: seq<byte>

    predicate Valid()
      reads this
    {
      pos <= |preface|
    }

    /** Everything a reader of this stream will still see. */
    ghost function Remaining(): seq<byte>
      requires Valid()
      reads this
    {
      preface[pos..] + inner
    }

    constructor (preface: seq<byte>, inner: seq<byte>)
      ensures Valid() && Remaining() == preface + inner && this.preface == preface
    {
      this.preface := preface;
      this.pos := 0;
      this.inner := inner;
    }

    /** One poll with a buffer of `capacity`; the socket has `ready` bytes at hand. */
    method PollRead(capacity: nat, ready: nat) returns (out: seq<byte>)
      requires Valid()
      modifies this
      ensures Valid() && out + Remaining() == old(Remaining()) && |out| <= capacity
      ensures capacity > 0 && old(pos) < |preface| ==> out != []
      ensures capacity > 0 && ready > 0 && old(Remaining()) != [] ==> out != []
    {
      ghost var before := Remaining();
      if pos < |preface| {
        var remaining := |preface| - pos;
        var n := Min(remaining, capacity);
        var start := pos;
        var end := start + n;
        out := preface[start..end];
        pos := end;
        assert preface[start..] == preface[start..end] + preface[end..];
        assert out + Remaining() == before;
        return;
      }
      var n := Min(|inner|, Min(capacity, ready));
      out := inner[..n];
      inner := inner[n..];
      assert out + Remaining() == before;
    }
  }

  /** The sizes and availabilities of a sequence of polls. */
  datatype Demand = Demand(capacity: nat, ready: nat)

  /** Reading the replaying stream with any buffer sizes yields its bytes in order from the first. */
  method Drain(stream: PrefacedStream, demands: seq<Demand>) returns (out: seq<byte>)
    requires stream.Valid()
    modifies stream
    ensures stream.Valid() && out + stream.Remaining() == old(stream.Remaining())
  {
    out := [];
    var k := 0;
    while k < |demands|
      invariant stream.Valid() && out + stream.Remaining() == old(stream.Remaining())
    {
      ghost var before := stream.Remaining();
      var more := stream.PollRead(demands[k].capacity, demands[k].ready);
      assert out + (more + stream.Remaining()) == out + more + stream.Remaining();
      out := out + more;
      k := k + 1;
    }
  }

  /**
   The fallback path: the record read is put back in front of the socket, so the
   next reader sees the client's stream from byte 0.
   */
  method FallBack(inputs: seq<Read>, rest: seq<byte>) returns (r: RecordResult, stream: PrefacedStream?)
    requires ValidReads(inputs)
    ensures r.Record? <==> stream != null
    ensures stream != null ==> fresh(stream) && stream.Valid()
    ensures stream != null ==> stream.preface == r.bytes && stream.Remaining() == Bytes(inputs) + rest
    ensures r.Record? <==> Accepted(inputs)
  {
    stream := null;
    var used;
    r, used := ReadFirstRecord(inputs);
    OneEnding(inputs, used, r, used, r);
    if r.Record? {
      var unread := LaterBytes(inputs, used);
      stream := new PrefacedStream(r.bytes, unread + rest);
      assert r.bytes + (unread + rest) == r.bytes + unread + rest;
    }
  }

  /** What the client still has in flight after the first `used` inputs. */
  method LaterBytes(inputs: seq<Read>, used: nat) returns (later: seq<byte>)
    requires used <= |inputs|
    ensures Bytes(inputs[..used]) + later == Bytes(inputs)
  {
    later := [];
    var k := used;
    while k < |inputs|
      invariant used <= k <= |inputs| && Bytes(inputs[..used]) + later == Bytes(inputs[..k])
    {
      assert inputs[..k + 1][..k] == inputs[..k] && inputs[..k + 1][k] == inputs[k];
      if inputs[k].Chunk? {
        assert Bytes(inputs[..used]) + (later + inputs[k].bytes) == Bytes(inputs[..used]) + later + inputs[k].bytes;
        later := later + inputs[k].bytes;
      }
      k := k + 1;
    }
    assert inputs[..k] == inputs;
  }
}
