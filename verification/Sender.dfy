/**
 The sending half of the Drive mailbox: the session-open batch, the pending
 batch with its coalesce timer, and the pump that turns local socket events into
 numbered frames and flushed batches.
 */
module Sender {
  import opened Prelude
  import opened Wire
  import opened Receiver

  const LOCAL_SOCKET_READ_BUFFER := 16 * 1024
  const COALESCE_INTERACTIVE_BYTES := 8 * 1024
  const COALESCE_INTERACTIVE_DELAY := 5
  const COALESCE_MEDIUM_BYTES := 64 * 1024
  const COALESCE_MEDIUM_DELAY := 50
  const COALESCE_BULK_DELAY := 100
  const BATCH_FLUSH_BYTES := 1024 * 1024
  const BATCH_MAX_FRAMES := 200

  // ---------- Session open ----------

  /** Where the bytes embedded in the open batch come from. */
  datatype Opening =
    | Preface(bytes: seq<byte>)   // request head already consumed by the proxy
    | CorkRead(bytes: seq<byte>)  // one read that completed within the cork window
    | CorkNothing                 // timeout or immediate end of file

  function PayloadBytes(frames: seq<WireFrame>): nat {
    if frames == [] then 0 else PayloadBytes(frames[..|frames| - 1]) + |frames[|frames| - 1].payload|
  }

  /** The bytes carried by the Data frames, in order. */
  function DataBytes(frames: seq<WireFrame>): seq<byte> {
    if frames == [] then []
    else
      var last := frames[|frames| - 1];
      DataBytes(frames[..|frames| - 1]) + if last.kind == Data then last.payload else []
  }

  ghost predicate NumberedFrom(frames: seq<WireFrame>, sid: SessionId, first: nat) {
    forall i {:trigger frames[i]} :: 0 <= i < |frames| ==>
      frames[i].sid == sid && frames[i].version == WIRE_VERSION && frames[i].seqno == first + i
  }

  ghost predicate ReadSized(frames: seq<WireFrame>) {
    forall i {:trigger frames[i]} :: 0 <= i < |frames| ==>
      frames[i].kind == Data && 1 <= |frames[i].payload| <= LOCAL_SOCKET_READ_BUFFER
  }

  /** Cut a preface into read-buffer sized Data frames. */
  function DataFramesFromBytes(sid: SessionId, next: nat, bytes: seq<byte>): (frames: seq<WireFrame>)
    requires next + |bytes| <= U64_LIMIT
    ensures NumberedFrom(frames, sid, next) && ReadSized(frames)
    ensures |frames| == (|bytes| + LOCAL_SOCKET_READ_BUFFER - 1) / LOCAL_SOCKET_READ_BUFFER
    decreases |bytes|
  {
    if bytes == [] then []
    else
      var n := Min(|bytes|, LOCAL_SOCKET_READ_BUFFER);
      [BuildWireFrame(Data, sid, next, bytes[..n])] + DataFramesFromBytes(sid, next + 1, bytes[n..])
  }

  /** A cork read returns between one byte and a full read buffer. */
  predicate ValidOpening(opening: Opening) {
    match opening
    case Preface(bytes) => 1 <= |bytes| && 1 + |bytes| <= U64_LIMIT
    case CorkRead(bytes) => 1 <= |bytes| <= LOCAL_SOCKET_READ_BUFFER
    case CorkNothing => true
  }

  function OpenFrames(sid: SessionId, opening: Opening): (frames: seq<WireFrame>)
    requires ValidOpening(opening)
    ensures NumberedFrom(frames, sid, 1) && ReadSized(frames)
  {
    match opening
    case Preface(bytes) => DataFramesFromBytes(sid, 1, bytes)
    case CorkRead(bytes) => [BuildWireFrame(Data, sid, 1, bytes)]
    case CorkNothing => []
  }

  function BuildSessionOpenBatch(sid: SessionId, address: seq<byte>, data: seq<WireFrame>): Batch {
    Batch([BuildWireFrame(Connect, sid, 0, address)] + data)
  }

  // ---------- Pump state ----------

  datatype Exit = Running | ExitOk | ExitErr

  datatype Tx = Tx(
    sid: SessionId,
    open: Batch,
    flushed: seq<Batch>,
    pending: seq<WireFrame>,
    pendingBytes: nat,
    flushDeadline: Option<int>,
    next: nat,
    localWritable: bool,
    localReadClosed: bool,
    written: seq<byte>,
    exit: Exit)

  /** Times are milliseconds. A failed local write may have written anything, so it leaves `written` alone. */
  datatype PumpEvent =
    | FromRelay(frame: Inbound, writeOk: bool)
    | MailboxClosed
    | TimerFired
    | LocalData(bytes: seq<byte>, now: int)
    | LocalEof
    | LocalError

  function StartPump(sid: SessionId, address: seq<byte>, opening: Opening): Tx
    requires ValidOpening(opening)
  {
    var data := OpenFrames(sid, opening);
    Tx(sid, BuildSessionOpenBatch(sid, address, data), [], [], 0, None, 1 + |data|, true, false, [], Running)
  }

  function PickCoalesceDelay(pendingBytes: nat): int {
    if pendingBytes < COALESCE_INTERACTIVE_BYTES then COALESCE_INTERACTIVE_DELAY
    else if pendingBytes < COALESCE_MEDIUM_BYTES then COALESCE_MEDIUM_DELAY
    else COALESCE_BULK_DELAY
  }

  function Flush(tx: Tx): Tx {
    if tx.pending == [] then tx
    else tx.(flushed := tx.flushed + [Batch(tx.pending)], pending := [], pendingBytes := 0, flushDeadline := None)
  }

  predicate ShouldFlush(tx: Tx, flushNow: bool) {
    flushNow || |tx.pending| >= 2 || |tx.pending| >= BATCH_MAX_FRAMES || tx.pendingBytes >= BATCH_FLUSH_BYTES
  }

  function Push(tx: Tx, frame: WireFrame, flushNow: bool, now: int): Tx {
    var pushed := tx.(pending := tx.pending + [frame], pendingBytes := tx.pendingBytes + |frame.payload|);
    if ShouldFlush(pushed, flushNow) then Flush(pushed)
    else
      var deadline := now + PickCoalesceDelay(pushed.pendingBytes);
      if tx.flushDeadline.Some? && tx.flushDeadline.value <= deadline then pushed
      else pushed.(flushDeadline := Some(deadline))
  }

  /** Give the next seq to a frame and push it. */
  function Emit(tx: Tx, kind: FrameKind, payload: seq<byte>, flushNow: bool, now: int): Tx
    requires tx.next < U64_LIMIT
  {
    Push(tx.(next := tx.next + 1), BuildWireFrame(kind, tx.sid, tx.next, payload), flushNow, now)
  }

  /** A control frame goes out at once, in one batch with whatever is pending. */
  function EmitControl(tx: Tx, kind: FrameKind): Tx
    requires tx.next < U64_LIMIT
  {
    tx.(next := tx.next + 1,
        flushed := tx.flushed + [Batch(tx.pending + [BuildWireFrame(kind, tx.sid, tx.next, [])])],
        pending := [], pendingBytes := 0, flushDeadline := None)
  }

  function EmitClose(tx: Tx, exit: Exit): Tx
    requires tx.next < U64_LIMIT
  {
    EmitControl(tx, Close).(exit := exit)
  }

  function EmitEof(tx: Tx): Tx
    requires tx.next < U64_LIMIT
  {
    EmitControl(tx, Eof).(localReadClosed := true)
  }

  /** What the select loop can wake up on in this state; one step uses at most two seqs. */
  predicate Enabled(tx: Tx, ev: PumpEvent) {
    && tx.exit == Running && tx.next + 2 <= U64_LIMIT
    && (ev.TimerFired? ==> tx.flushDeadline.Some?)
    && (ev.LocalData? || ev.LocalEof? || ev.LocalError? ==> !tx.localReadClosed)
    && (ev.LocalData? ==> 1 <= |ev.bytes| <= LOCAL_SOCKET_READ_BUFFER)
  }

  function Step(tx: Tx, ev: PumpEvent): Tx
    requires Enabled(tx, ev)
  {
    match ev
    case FromRelay(InData(bytes), writeOk) =>
      if !tx.localWritable then tx
      else if writeOk then tx.(written := tx.written + bytes)
      else EmitClose(tx, ExitErr)
    case FromRelay(InEof, _) =>
      var shut := tx.(localWritable := false);
      if tx.localReadClosed then EmitClose(shut, ExitOk) else shut
    case FromRelay(InClose, _) => Flush(tx).(exit := ExitOk)
    case MailboxClosed => Flush(tx).(exit := ExitOk)
    case TimerFired => Flush(tx)
    case LocalData(bytes, now) => Emit(tx, Data, bytes, false, now)
    case LocalEof =>
      if !tx.localWritable then EmitClose(EmitEof(tx), ExitOk) else EmitEof(tx)
    case LocalError => EmitClose(tx, ExitErr)
  }

  ghost predicate PossibleRun(tx: Tx, events: seq<PumpEvent>)
    decreases |events|
  {
    events != [] ==> Enabled(tx, events[0]) && PossibleRun(Step(tx, events[0]), events[1..])
  }

  function Run(tx: Tx, events: seq<PumpEvent>): Tx
    requires PossibleRun(tx, events)
    decreases |events|
  {
    if events == [] then tx else Run(Step(tx, events[0]), events[1..])
  }

  // ---------- The imperative pump ----------

  class Pump {
    const sid: SessionId
    const open: Batch
    var uploads: seq<Batch>
    var pending: seq<WireFrame>
    var pendingBytes: nat
    var flushDeadline: Option<int>
    var nextSeq: nat
    var localWritable: bool
    var localReadClosed: bool
    var written: seq<byte>

    ghost function View(exit: Exit): Tx
      reads this
    {
      Tx(sid, open, uploads, pending, pendingBytes, flushDeadline, nextSeq, localWritable, localReadClosed, written, exit)
    }

    constructor (sid: SessionId, address: seq<byte>, opening: Opening)
      requires ValidOpening(opening)
      ensures View(Running) == StartPump(sid, address, opening)
    {
      var data := OpenFrames(sid, opening);
      this.sid := sid;
      open := BuildSessionOpenBatch(sid, address, data);
      uploads, pending, pendingBytes, flushDeadline := [], [], 0, None;
      nextSeq := 1 + |data|;
      localWritable, localReadClosed, written := true, false, [];
    }

    /** Seal what is pending and hand it to a detached upload task. */
    method FlushBatch()
      modifies this`uploads, this`pending, this`pendingBytes, this`flushDeadline
      ensures View(Running) == Flush(old(View(Running)))
    {
      if pending == [] {
        return;
      }
      var batch := Batch(pending);
      pending := [];
      pendingBytes := 0;
      flushDeadline := None;
      uploads := uploads + [batch];
    }

    method PushFrame(frame: WireFrame, flushNow: bool, now: int)
      modifies this`uploads, this`pending, this`pendingBytes, this`flushDeadline
      ensures View(Running) == Push(old(View(Running)), frame, flushNow, now)
    {
      pendingBytes := pendingBytes + |frame.payload|;
      pending := pending + [frame];
      var shouldFlush := flushNow || |pending| >= 2 || |pending| >= BATCH_MAX_FRAMES || pendingBytes >= BATCH_FLUSH_BYTES;
      if shouldFlush {
        FlushBatch();
        return;
      }
      var deadline := now + PickCoalesceDelay(pendingBytes);
      if !(flushDeadline.Some? && flushDeadline.value <= deadline) {
        flushDeadline := Some(deadline);
      }
    }

    method PushNext(kind: FrameKind, payload: seq<byte>, flushNow: bool, now: int)
      requires nextSeq < U64_LIMIT
      modifies this`uploads, this`pending, this`pendingBytes, this`flushDeadline, this`nextSeq
      ensures View(Running) == Emit(old(View(Running)), kind, payload, flushNow, now)
    {
      var seqno := nextSeq;
      nextSeq := nextSeq + 1;
      PushFrame(BuildWireFrame(kind, sid, seqno, payload), flushNow, now);
    }

    method PushControl(kind: FrameKind)
      requires nextSeq < U64_LIMIT
      modifies this`uploads, this`pending, this`pendingBytes, this`flushDeadline, this`nextSeq
      ensures View(Running) == EmitControl(old(View(Running)), kind)
    {
      PushNext(kind, [], true, 0);
    }

    method HandleRelay(frame: Inbound, writeOk: bool) returns (exit: Exit)
      requires Enabled(View(Running), FromRelay(frame, writeOk))
      modifies this
      ensures View(exit) == Step(old(View(Running)), FromRelay(frame, writeOk))
    {
      match frame {
        case InData(bytes) =>
          if !localWritable {
            return Running;
          }
          if !writeOk {
            PushControl(Close);
            return ExitErr;
          }
          written := written + bytes;
        case InEof =>
          localWritable := false;
          if localReadClosed {
            PushControl(Close);
            return ExitOk;
          }
        case InClose =>
          FlushBatch();
          return ExitOk;
      }
      return Running;
    }

    method HandleLocalEof() returns (exit: Exit)
      requires Enabled(View(Running), LocalEof)
      modifies this
      ensures View(exit) == Step(old(View(Running)), LocalEof)
    {
      PushControl(Eof);
      localReadClosed := true;
      if !localWritable {
        PushControl(Close);
        return ExitOk;
      }
      return Running;
    }

    /** One turn of the select loop. */
    method Turn(ev: PumpEvent) returns (exit: Exit)
      requires Enabled(View(Running), ev)
      modifies this
      ensures View(exit) == Step(old(View(Running)), ev)
    {
      match ev {
        case FromRelay(frame, writeOk) => exit := HandleRelay(frame, writeOk);
        case MailboxClosed =>
          FlushBatch();
          return ExitOk;
        case TimerFired =>
          FlushBatch();
          return Running;
        case LocalData(bytes, now) =>
          PushNext(Data, bytes, false, now);
          return Running;
        case LocalEof => exit := HandleLocalEof();
        case LocalError =>
          PushControl(Close);
          return ExitErr;
      }
    }

    /** The pump loop, driven by the events it is woken by until it returns or they run out. */
    method PumpSession(events: seq<PumpEvent>) returns (exit: Exit)
      requires PossibleRun(View(Running), events)
      modifies this
      ensures View(exit) == Run(old(View(Running)), events)
    {
      exit := Running;
      ghost var goal := Run(View(Running), events);
      var k := 0;
      while k < |events|
        invariant 0 <= k <= |events|
        invariant PossibleRun(View(exit), events[k..]) && Run(View(exit), events[k..]) == goal
      {
        assert events[k..][0] == events[k] && events[k..][1..] == events[k + 1..];
        exit := Turn(events[k]);
        k := k + 1;
      }
    }
  }
}
