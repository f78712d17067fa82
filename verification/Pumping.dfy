/**
 What the sender guarantees over every run of the pump.
 */
module Pumping {
  import opened Prelude
  import opened Wire
  import opened Batches
  import opened Replay
  import opened Receiver
  import opened Sender

  // ---------- The frames a session has produced ----------

  function Uploads(tx: Tx): seq<Batch> { [tx.open] + tx.flushed }

  /** Open batch, flushed batches in flush order, then whatever is pending. */
  function AllFrames(tx: Tx): seq<WireFrame> { Stream(Uploads(tx)) + tx.pending }

  function OpeningBytes(opening: Opening): seq<byte> {
    match opening
    case Preface(bytes) => bytes
    case CorkRead(bytes) => bytes
    case CorkNothing => []
  }

  /** The bytes the local socket gave up during the run. */
  function ReadBytes(events: seq<PumpEvent>): seq<byte> {
    if events == [] then []
    else (if events[0].LocalData? then events[0].bytes else []) + ReadBytes(events[1..])
  }

  lemma {:induction false} DataBytesAppend(a: seq<WireFrame>, b: seq<WireFrame>)
    ensures DataBytes(a + b) == DataBytes(a) + DataBytes(b)
  {
    if b == [] {
      assert a + b == a;
    } else {
      var n := |b| - 1;
      assert (a + b)[..|a + b| - 1] == a + b[..n];
      DataBytesAppend(a, b[..n]);
    }
  }

  lemma DataBytesCons(f: WireFrame, frames: seq<WireFrame>)
    ensures DataBytes([f] + frames) == (if f.kind == Data then f.payload else []) + DataBytes(frames)
  {
    DataBytesAppend([f], frames);
    assert [f][..0] == [];
    assert DataBytes([f]) == DataBytes([f][..0]) + if f.kind == Data then f.payload else [];
  }

  lemma {:induction false} DataFramesCarryBytes(sid: SessionId, next: nat, bytes: seq<byte>)
    requires next + |bytes| <= U64_LIMIT
    ensures DataBytes(DataFramesFromBytes(sid, next, bytes)) == bytes
    decreases |bytes|
  {
    if bytes != [] {
      var n := Min(|bytes|, LOCAL_SOCKET_READ_BUFFER);
      DataFramesCarryBytes(sid, next + 1, bytes[n..]);
      DataBytesCons(BuildWireFrame(Data, sid, next, bytes[..n]), DataFramesFromBytes(sid, next + 1, bytes[n..]));
      assert bytes[..n] + bytes[n..] == bytes;
    }
  }

  // ---------- Frame kinds ----------

  function Rank(kind: FrameKind): int {
    match kind
    case Connect => 0
    case Data => 1
    case Eof => 2
    case Close => 3
    case Hello => 4
    case Error => 4
  }

  /** Connect Data* Eof? Close?: ranks rise along the stream and only Data repeats. */
  ghost predicate InLanguage(frames: seq<WireFrame>) {
    && frames != [] && frames[0].kind == Connect
    && (forall i {:trigger frames[i]} :: 0 <= i < |frames| ==> Rank(frames[i].kind) <= 3)
    && (forall i, j {:trigger frames[i], frames[j]} :: 0 <= i < j < |frames| ==>
          Rank(frames[i].kind) < Rank(frames[j].kind) || frames[i].kind == frames[j].kind == Data)
  }

  // ---------- The invariant ----------

  /** Every frame so far is numbered without gap or repeat, and the session's state agrees with what it sent last. */
  ghost predicate Coherent(tx: Tx) {
    var frames := AllFrames(tx);
    && NumberedFrom(frames, tx.sid, 0) && |frames| == tx.next
    && InLanguage(frames)
    && (tx.exit == Running ==> Rank(frames[|frames| - 1].kind) <= 2)
    && (tx.exit == Running && !tx.localReadClosed ==> Rank(frames[|frames| - 1].kind) <= 1)
  }

  /** Nothing is stranded: a frame waits exactly while a deadline is armed, and alone. */
  ghost predicate Unstranded(tx: Tx) {
    && |tx.pending| <= 1
    && (tx.pending != [] <==> tx.flushDeadline.Some?)
    && (tx.pending != [] ==> tx.exit == Running)
    && tx.pendingBytes == PayloadBytes(tx.pending)
    && (tx.pending != [] ==> tx.pending[0].kind == Data && |tx.pending[0].payload| <= LOCAL_SOCKET_READ_BUFFER)
  }

  ghost predicate SteadyBatch(b: Batch) {
    1 <= |b.frames| <= 2 && PayloadBytes(b.frames) <= 2 * LOCAL_SOCKET_READ_BUFFER
  }

  ghost predicate SteadyBatches(tx: Tx) {
    forall k {:trigger tx.flushed[k]} :: 0 <= k < |tx.flushed| ==> SteadyBatch(tx.flushed[k])
  }

  ghost predicate Good(tx: Tx) { Coherent(tx) && Unstranded(tx) && SteadyBatches(tx) }

  // ---------- One push, one flush ----------

  lemma FlushKeepsFrames(tx: Tx)
    ensures AllFrames(Flush(tx)) == AllFrames(tx)
  {
    if tx.pending != [] {
      assert Uploads(Flush(tx)) == Uploads(tx) + [Batch(tx.pending)];
      StreamSnoc(Uploads(tx), Batch(tx.pending));
    }
  }

  lemma PayloadBytesSnoc(frames: seq<WireFrame>, f: WireFrame)
    ensures PayloadBytes(frames + [f]) == PayloadBytes(frames) + |f.payload|
  {
    assert (frames + [f])[..|frames|] == frames;
  }

  lemma PushAppends(tx: Tx, f: WireFrame, flushNow: bool, now: int)
    ensures AllFrames(Push(tx, f, flushNow, now)) == AllFrames(tx) + [f]
  {
    var pushed := tx.(pending := tx.pending + [f], pendingBytes := tx.pendingBytes + |f.payload|);
    assert AllFrames(pushed) == AllFrames(tx) + [f];
    if ShouldFlush(pushed, flushNow) {
      FlushKeepsFrames(pushed);
    }
  }

  lemma EmitAppends(tx: Tx, kind: FrameKind, payload: seq<byte>, flushNow: bool, now: int)
    requires tx.next < U64_LIMIT
    ensures AllFrames(Emit(tx, kind, payload, flushNow, now))
         == AllFrames(tx) + [BuildWireFrame(kind, tx.sid, tx.next, payload)]
  {
    PushAppends(tx.(next := tx.next + 1), BuildWireFrame(kind, tx.sid, tx.next, payload), flushNow, now);
  }

  lemma ControlAppends(tx: Tx, kind: FrameKind)
    requires tx.next < U64_LIMIT
    ensures AllFrames(EmitControl(tx, kind)) == AllFrames(tx) + [BuildWireFrame(kind, tx.sid, tx.next, [])]
  {
    var batch := Batch(tx.pending + [BuildWireFrame(kind, tx.sid, tx.next, [])]);
    assert Uploads(EmitControl(tx, kind)) == Uploads(tx) + [batch];
    StreamSnoc(Uploads(tx), batch);
  }

  /** Appending a frame of a legal next kind keeps the stream numbered and in the language. */
  lemma AppendCoherent(frames: seq<WireFrame>, f: WireFrame, sid: SessionId)
    requires NumberedFrom(frames, sid, 0) && InLanguage(frames)
    requires f.sid == sid && f.version == WIRE_VERSION && f.seqno == |frames|
    requires Rank(f.kind) <= 3
    requires var last := frames[|frames| - 1].kind; Rank(last) < Rank(f.kind) || last == f.kind == Data
    ensures NumberedFrom(frames + [f], sid, 0) && InLanguage(frames + [f])
  {
    var n, all := |frames|, frames + [f];
    forall i, j | 0 <= i < j < |all|
      ensures Rank(all[i].kind) < Rank(all[j].kind) || all[i].kind == all[j].kind == Data
    {
      if j == n {
        assert all[i] == frames[i] && all[j] == f;
        assert i < n - 1 ==>
            Rank(frames[i].kind) < Rank(frames[n - 1].kind) || frames[i].kind == frames[n - 1].kind == Data;
      } else {
        assert all[i] == frames[i] && all[j] == frames[j];
      }
    }
  }

  lemma PendingPayload(tx: Tx, f: WireFrame)
    requires Unstranded(tx) && |f.payload| <= LOCAL_SOCKET_READ_BUFFER
    ensures PayloadBytes(tx.pending + [f]) == tx.pendingBytes + |f.payload| <= 2 * LOCAL_SOCKET_READ_BUFFER
    ensures tx.pending == [] ==> tx.pendingBytes == 0
  {
    PayloadBytesSnoc(tx.pending, f);
    if tx.pending != [] {
      PayloadBytesSnoc([], tx.pending[0]);
      assert [] + [tx.pending[0]] == tx.pending;
    }
  }

  /** A push that is told to flush, or finds a frame waiting, sends everything as one batch. */
  lemma PushFlushes(tx: Tx, f: WireFrame, flushNow: bool, now: int)
    requires Unstranded(tx) && SteadyBatches(tx) && |f.payload| <= LOCAL_SOCKET_READ_BUFFER
    requires flushNow || tx.pending != []
    ensures var tx' := Push(tx, f, flushNow, now);
            && tx'.flushed == tx.flushed + [Batch(tx.pending + [f])]
            && Unstranded(tx') && SteadyBatches(tx')
  {
    PendingPayload(tx, f);
    assert SteadyBatch(Batch(tx.pending + [f]));
  }

  /** Otherwise the frame waits alone behind a fresh deadline. */
  lemma PushWaits(tx: Tx, f: WireFrame, now: int)
    requires Unstranded(tx) && SteadyBatches(tx) && |f.payload| <= LOCAL_SOCKET_READ_BUFFER
    requires tx.pending == [] && tx.exit == Running && f.kind == Data
    ensures var tx' := Push(tx, f, false, now);
            && tx'.flushed == tx.flushed
            && tx'.flushDeadline == Some(now + if |f.payload| < COALESCE_INTERACTIVE_BYTES then 5 else 50)
            && Unstranded(tx') && SteadyBatches(tx')
  {
    PendingPayload(tx, f);
    assert tx.pending + [f] == [f];
  }

  ghost predicate Steady(tx: Tx) { Unstranded(tx) && SteadyBatches(tx) }

  lemma {:induction false} PushUnstranded(tx: Tx, f: WireFrame, flushNow: bool, now: int) returns (tx': Tx)
    requires Steady(tx) && tx.exit == Running
    requires |f.payload| <= LOCAL_SOCKET_READ_BUFFER && (f.kind == Data || flushNow)
    ensures tx' == Push(tx, f, flushNow, now) && Steady(tx')
  {
    tx' := Push(tx, f, flushNow, now);
    if flushNow || tx.pending != [] {
      PushFlushes(tx, f, flushNow, now);
    } else {
      PushWaits(tx, f, now);
    }
  }

  lemma ControlUnstranded(tx: Tx, kind: FrameKind)
    requires tx.next < U64_LIMIT && Unstranded(tx) && SteadyBatches(tx)
    ensures Unstranded(EmitControl(tx, kind)) && SteadyBatches(EmitControl(tx, kind))
  {
    var f := BuildWireFrame(kind, tx.sid, tx.next, []);
    PendingPayload(tx, f);
    assert SteadyBatch(Batch(tx.pending + [f]));
  }

  /** A session that just emitted a frame of a legal next kind is coherent. */
  lemma AppendedCoherent(tx: Tx, kind: FrameKind, payload: seq<byte>, tx': Tx)
    requires tx.next < U64_LIMIT && Coherent(tx)
    requires Rank(kind) <= 3
    requires var last := AllFrames(tx)[|AllFrames(tx)| - 1].kind; Rank(last) < Rank(kind) || last == kind == Data
    requires AllFrames(tx') == AllFrames(tx) + [BuildWireFrame(kind, tx.sid, tx.next, payload)]
    requires tx'.sid == tx.sid && tx'.next == tx.next + 1
    requires tx'.exit == Running ==> Rank(kind) <= 2 && (tx'.localReadClosed || Rank(kind) <= 1)
    ensures Coherent(tx')
  {
    AppendCoherent(AllFrames(tx), BuildWireFrame(kind, tx.sid, tx.next, payload), tx.sid);
  }

  lemma {:induction false} FlushSteady(tx: Tx)
    requires Unstranded(tx) && SteadyBatches(tx)
    ensures Unstranded(Flush(tx)) && SteadyBatches(Flush(tx)) && Flush(tx).pending == []
  {
    if tx.pending != [] {
      SingleSteady(tx.pending);
      SteadySnoc(tx.flushed, Batch(tx.pending));
    }
  }

  lemma SingleSteady(pending: seq<WireFrame>)
    requires |pending| == 1 && |pending[0].payload| <= LOCAL_SOCKET_READ_BUFFER
    ensures SteadyBatch(Batch(pending)) && PayloadBytes([]) == 0
  {
    PayloadBytesSnoc([], pending[0]);
    assert pending == [] + [pending[0]];
  }

  lemma SteadySnoc(flushed: seq<Batch>, b: Batch)
    requires (forall k {:trigger flushed[k]} :: 0 <= k < |flushed| ==> SteadyBatch(flushed[k])) && SteadyBatch(b)
    ensures forall k {:trigger (flushed + [b])[k]} :: 0 <= k <= |flushed| ==> SteadyBatch((flushed + [b])[k])
  {}

  lemma FlushGood(tx: Tx, exit: Exit)
    requires Good(tx) && tx.exit == Running
    ensures Good(Flush(tx).(exit := exit))
  {
    FlushSteady(tx);
    FlushKeepsFrames(tx);
    assert AllFrames(Flush(tx).(exit := exit)) == AllFrames(Flush(tx));
  }

  lemma CloseGood(tx: Tx, exit: Exit)
    requires tx.next < U64_LIMIT && Good(tx) && tx.exit == Running && exit != Running
    ensures Good(EmitClose(tx, exit))
  {
    ControlUnstranded(tx, Close);
    ControlAppends(tx, Close);
    assert AllFrames(EmitClose(tx, exit)) == AllFrames(EmitControl(tx, Close));
    AppendedCoherent(tx, Close, [], EmitClose(tx, exit));
  }

  lemma EofGood(tx: Tx)
    requires tx.next < U64_LIMIT && Good(tx) && tx.exit == Running && !tx.localReadClosed
    ensures Good(EmitEof(tx))
  {
    ControlUnstranded(tx, Eof);
    ControlAppends(tx, Eof);
    assert AllFrames(EmitEof(tx)) == AllFrames(EmitControl(tx, Eof));
    AppendedCoherent(tx, Eof, [], EmitEof(tx));
  }

  lemma {:induction false} DataUnstranded(tx: Tx, bytes: seq<byte>, now: int) returns (tx': Tx)
    requires Enabled(tx, LocalData(bytes, now)) && Steady(tx)
    ensures tx' == Emit(tx, Data, bytes, false, now) && Steady(tx')
  {
    var numbered, f := tx.(next := tx.next + 1), BuildWireFrame(Data, tx.sid, tx.next, bytes);
    NumberedUnstranded(tx, tx.next + 1);
    tx' := PushUnstranded(numbered, f, false, now);
  }

  lemma {:induction false} NumberedUnstranded(tx: Tx, next: nat)
    requires Steady(tx)
    ensures Steady(tx.(next := next))
  {}

  lemma DataCoherent(tx: Tx, bytes: seq<byte>, now: int)
    requires Enabled(tx, LocalData(bytes, now)) && Coherent(tx)
    ensures Coherent(Emit(tx, Data, bytes, false, now))
  {
    EmitAppends(tx, Data, bytes, false, now);
    AppendedCoherent(tx, Data, bytes, Emit(tx, Data, bytes, false, now));
  }

  lemma DataGood(tx: Tx, bytes: seq<byte>, now: int)
    requires Enabled(tx, LocalData(bytes, now)) && Good(tx)
    ensures Good(Emit(tx, Data, bytes, false, now))
  {
    var tx' := DataUnstranded(tx, bytes, now);
    DataCoherent(tx, bytes, now);
  }

  lemma SameFrames(tx: Tx, tx': Tx)
    requires Good(tx) && tx.exit == tx'.exit == Running
    requires tx' == tx.(localWritable := tx'.localWritable, written := tx'.written)
    ensures Good(tx') && AllFrames(tx') == AllFrames(tx)
  {
    assert Uploads(tx') == Uploads(tx);
  }

  // ---------- Every step ----------

  lemma RelayStepGood(tx: Tx, frame: Inbound, writeOk: bool)
    requires Good(tx) && Enabled(tx, FromRelay(frame, writeOk))
    ensures Good(Step(tx, FromRelay(frame, writeOk)))
  {
    match frame
    case InData(bytes) =>
      if tx.localWritable && !writeOk {
        CloseGood(tx, ExitErr);
      } else {
        SameFrames(tx, Step(tx, FromRelay(frame, writeOk)));
      }
    case InEof =>
      var shut := tx.(localWritable := false);
      SameFrames(tx, shut);
      if tx.localReadClosed {
        CloseGood(shut, ExitOk);
      }
    case InClose => FlushGood(tx, ExitOk);
  }

  lemma {:induction false} LocalEofGood(tx: Tx)
    requires Good(tx) && Enabled(tx, LocalEof)
    ensures Good(Step(tx, LocalEof))
  {
    EofGood(tx);
    LocalEofStep(tx);
    if !tx.localWritable {
      CloseGood(EmitEof(tx), ExitOk);
    }
  }

  lemma {:induction false} LocalEofStep(tx: Tx)
    requires Enabled(tx, LocalEof)
    ensures EmitEof(tx).next == tx.next + 1 < U64_LIMIT && EmitEof(tx).exit == Running
    ensures Step(tx, LocalEof) == if tx.localWritable then EmitEof(tx) else EmitClose(EmitEof(tx), ExitOk)
  {}

  lemma FlushStepGood(tx: Tx, ev: PumpEvent)
    requires Good(tx) && Enabled(tx, ev) && (ev.MailboxClosed? || ev.TimerFired?)
    ensures Good(Step(tx, ev))
  {
    FlushGood(tx, if ev.MailboxClosed? then ExitOk else Running);
  }

  /** Every turn keeps the session in good order. */
  lemma StepGood(tx: Tx, ev: PumpEvent)
    requires Good(tx) && Enabled(tx, ev)
    ensures Good(Step(tx, ev))
  {
    match ev
    case FromRelay(frame, writeOk) => RelayStepGood(tx, frame, writeOk);
    case MailboxClosed => FlushStepGood(tx, ev);
    case TimerFired => FlushStepGood(tx, ev);
    case LocalData(bytes, now) => DataGood(tx, bytes, now);
    case LocalEof => LocalEofGood(tx);
    case LocalError => CloseGood(tx, ExitErr);
  }

  // ---------- Every run ----------

  lemma {:induction false} StartFrames(sid: SessionId, address: seq<byte>, opening: Opening)
    requires ValidOpening(opening)
    ensures AllFrames(StartPump(sid, address, opening))
         == [BuildWireFrame(Connect, sid, 0, address)] + OpenFrames(sid, opening)
  {
    var tx := StartPump(sid, address, opening);
    assert Uploads(tx) == [tx.open];
    StreamOne(tx.open);
    assert tx.open.frames + [] == tx.open.frames;
  }

  lemma OpenInLanguage(connect: WireFrame, data: seq<WireFrame>, sid: SessionId)
    requires connect.kind == Connect && NumberedFrom([connect], sid, 0)
    requires NumberedFrom(data, sid, 1) && ReadSized(data)
    ensures NumberedFrom([connect] + data, sid, 0) && InLanguage([connect] + data)
    ensures Rank(([connect] + data)[|data|].kind) <= 1
  {
    var frames := [connect] + data;
    assert frames[0] == connect == [connect][0];
    forall i | 1 <= i < |frames|
      ensures frames[i].kind == Data && frames[i].sid == sid && frames[i].version == WIRE_VERSION && frames[i].seqno == i
    {
      assert frames[i] == data[i - 1];
    }
  }

  lemma StartGood(sid: SessionId, address: seq<byte>, opening: Opening)
    requires ValidOpening(opening)
    ensures Good(StartPump(sid, address, opening))
  {
    StartFrames(sid, address, opening);
    OpenInLanguage(BuildWireFrame(Connect, sid, 0, address), OpenFrames(sid, opening), sid);
  }

  lemma OpenDataBytes(sid: SessionId, opening: Opening)
    requires ValidOpening(opening)
    ensures DataBytes(OpenFrames(sid, opening)) == OpeningBytes(opening)
  {
    match opening
    case Preface(bytes) => DataFramesCarryBytes(sid, 1, bytes);
    case CorkRead(bytes) =>
      assert OpenFrames(sid, opening)[..0] == [];
    case CorkNothing =>
  }

  lemma StartBytes(sid: SessionId, address: seq<byte>, opening: Opening)
    requires ValidOpening(opening)
    ensures DataBytes(AllFrames(StartPump(sid, address, opening))) == OpeningBytes(opening)
  {
    var connect, data := BuildWireFrame(Connect, sid, 0, address), OpenFrames(sid, opening);
    StartFrames(sid, address, opening);
    DataBytesAppend([connect], data);
    assert [connect][..0] == [];
    OpenDataBytes(sid, opening);
  }

  lemma {:induction false} RunGood(tx: Tx, events: seq<PumpEvent>)
    requires Good(tx) && PossibleRun(tx, events)
    ensures Good(Run(tx, events))
    decreases |events|
  {
    if events != [] {
      StepGood(tx, events[0]);
      RunGood(Step(tx, events[0]), events[1..]);
    }
  }

  lemma DataBytesSnoc(frames: seq<WireFrame>, f: WireFrame)
    ensures DataBytes(frames + [f]) == DataBytes(frames) + if f.kind == Data then f.payload else []
  {
    assert (frames + [f])[..|frames|] == frames;
  }

  lemma ControlBytes(tx: Tx, kind: FrameKind)
    requires tx.next < U64_LIMIT && kind != Data
    ensures DataBytes(AllFrames(EmitControl(tx, kind))) == DataBytes(AllFrames(tx))
  {
    ControlAppends(tx, kind);
    DataBytesSnoc(AllFrames(tx), BuildWireFrame(kind, tx.sid, tx.next, []));
  }

  lemma CloseBytes(tx: Tx, exit: Exit)
    requires tx.next < U64_LIMIT
    ensures DataBytes(AllFrames(EmitClose(tx, exit))) == DataBytes(AllFrames(tx))
  {
    ControlBytes(tx, Close);
    assert AllFrames(EmitClose(tx, exit)) == AllFrames(EmitControl(tx, Close));
  }

  lemma EofBytes(tx: Tx)
    requires tx.next < U64_LIMIT
    ensures DataBytes(AllFrames(EmitEof(tx))) == DataBytes(AllFrames(tx))
  {
    ControlBytes(tx, Eof);
    assert AllFrames(EmitEof(tx)) == AllFrames(EmitControl(tx, Eof));
  }

  lemma FlushBytes(tx: Tx, exit: Exit)
    ensures DataBytes(AllFrames(Flush(tx).(exit := exit))) == DataBytes(AllFrames(tx))
  {
    FlushKeepsFrames(tx);
    assert AllFrames(Flush(tx).(exit := exit)) == AllFrames(Flush(tx));
  }

  lemma RelayBytes(tx: Tx, frame: Inbound, writeOk: bool)
    requires Enabled(tx, FromRelay(frame, writeOk))
    ensures DataBytes(AllFrames(Step(tx, FromRelay(frame, writeOk)))) == DataBytes(AllFrames(tx))
  {
    match frame
    case InData(bytes) =>
      CloseBytes(tx, ExitErr);
      assert AllFrames(tx.(written := tx.written + bytes)) == AllFrames(tx);
    case InEof =>
      var shut := tx.(localWritable := false);
      assert AllFrames(shut) == AllFrames(tx);
      CloseBytes(shut, ExitOk);
    case InClose => FlushBytes(tx, ExitOk);
  }

  /** Every turn turns exactly the bytes it read into Data payload. */
  lemma StepBytes(tx: Tx, ev: PumpEvent)
    requires Enabled(tx, ev)
    ensures DataBytes(AllFrames(Step(tx, ev)))
         == DataBytes(AllFrames(tx)) + if ev.LocalData? then ev.bytes else []
  {
    match ev
    case FromRelay(frame, writeOk) => RelayBytes(tx, frame, writeOk);
    case MailboxClosed => FlushBytes(tx, ExitOk);
    case TimerFired => FlushKeepsFrames(tx);
    case LocalData(bytes, now) =>
      EmitAppends(tx, Data, bytes, false, now);
      DataBytesSnoc(AllFrames(tx), BuildWireFrame(Data, tx.sid, tx.next, bytes));
    case LocalEof =>
      EofBytes(tx);
      CloseBytes(EmitEof(tx), ExitOk);
    case LocalError => CloseBytes(tx, ExitErr);
  }

  lemma {:induction false} RunBytes(tx: Tx, events: seq<PumpEvent>)
    requires PossibleRun(tx, events)
    ensures DataBytes(AllFrames(Run(tx, events))) == DataBytes(AllFrames(tx)) + ReadBytes(events)
    decreases |events|
  {
    if events != [] {
      StepBytes(tx, events[0]);
      RunBytes(Step(tx, events[0]), events[1..]);
    }
  }

  /**
   Over every run of a session: the open batch, the flushed batches in flush order
   and the pending frame are frames 0..next-1 without gap or repeat; their Data
   payloads are exactly the bytes taken from the local side; their kinds are in
   Connect Data* Eof? Close?; and nothing is pending once the pump has returned.
   */
  lemma SenderConserves(sid: SessionId, address: seq<byte>, opening: Opening, events: seq<PumpEvent>)
    requires ValidOpening(opening) && PossibleRun(StartPump(sid, address, opening), events)
    ensures var tx := Run(StartPump(sid, address, opening), events);
            && |AllFrames(tx)| == tx.next && NumberedFrom(AllFrames(tx), tx.sid, 0)
            && DataBytes(AllFrames(tx)) == OpeningBytes(opening) + ReadBytes(events)
            && InLanguage(AllFrames(tx))
            && (tx.exit != Running ==> tx.pending == [])
  {
    StartGood(sid, address, opening);
    StartBytes(sid, address, opening);
    RunGood(StartPump(sid, address, opening), events);
    RunBytes(StartPump(sid, address, opening), events);
  }

  /**
   Between turns at most one frame waits, and one waits exactly while a deadline is
   armed; every steady-state upload holds one or two frames and at most two read
   buffers of payload.
   */
  lemma NothingStranded(sid: SessionId, address: seq<byte>, opening: Opening, events: seq<PumpEvent>)
    requires ValidOpening(opening) && PossibleRun(StartPump(sid, address, opening), events)
    ensures var tx := Run(StartPump(sid, address, opening), events);
            && |tx.pending| <= 1 && (tx.pending != [] <==> tx.flushDeadline.Some?)
            && forall k {:trigger tx.flushed[k]} :: 0 <= k < |tx.flushed| ==>
                 1 <= |tx.flushed[k].frames| <= 2 && PayloadBytes(tx.flushed[k].frames) <= 32 * 1024
  {
    StartGood(sid, address, opening);
    RunGood(StartPump(sid, address, opening), events);
  }

  /**
   In a session in good order the count cap, the byte cap and the bulk tier decide
   nothing: a push flushes exactly when it is told to or finds a frame waiting, and
   otherwise arms a wait of 5 or 50 ms.
   */
  lemma CapsNeverTrigger(tx: Tx, f: WireFrame, flushNow: bool, now: int)
    requires Good(tx) && tx.exit == Running && f.kind == Data && |f.payload| <= LOCAL_SOCKET_READ_BUFFER
    ensures var tx' := Push(tx, f, flushNow, now);
            && (tx'.flushed == tx.flushed + [Batch(tx.pending + [f])] <==> flushNow || tx.pending != [])
            && (tx'.flushed == tx.flushed <==> !flushNow && tx.pending == [])
            && (tx'.flushed == tx.flushed ==>
                  tx'.flushDeadline == Some(now + if |f.payload| < COALESCE_INTERACTIVE_BYTES then 5 else 50))
  {
    if flushNow || tx.pending != [] {
      PushFlushes(tx, f, flushNow, now);
    } else {
      PushWaits(tx, f, now);
    }
  }

  // ---------- Bytes written to the local socket ----------

  /** The relay half-closed or closed, or its mailbox went away. */
  predicate EndsRelay(ev: PumpEvent) {
    ev.MailboxClosed? || (ev.FromRelay? && !ev.frame.InData?)
  }

  function RelayBytesOf(ev: PumpEvent): seq<byte> {
    if ev.FromRelay? && ev.frame.InData? then ev.frame.bytes else []
  }

  /** Relay payload handled before the relay first half-closes or closes. */
  function BytesBeforeEnd(events: seq<PumpEvent>): seq<byte> {
    if events == [] || EndsRelay(events[0]) then []
    else RelayBytesOf(events[0]) + BytesBeforeEnd(events[1..])
  }

  ghost predicate NoWriteFails(events: seq<PumpEvent>) {
    forall k {:trigger events[k]} :: 0 <= k < |events| ==> events[k].FromRelay? ==> events[k].writeOk
  }

  lemma StepWrites(tx: Tx, ev: PumpEvent)
    requires Enabled(tx, ev) && (ev.FromRelay? ==> ev.writeOk)
    ensures Step(tx, ev).written == tx.written + if tx.localWritable then RelayBytesOf(ev) else []
    ensures EndsRelay(ev) ==> Step(tx, ev).exit != Running || !Step(tx, ev).localWritable
    ensures !EndsRelay(ev) ==> Step(tx, ev).localWritable == tx.localWritable
    ensures !tx.localWritable ==> !Step(tx, ev).localWritable
  {}

  lemma ExitEndsRun(tx: Tx, events: seq<PumpEvent>)
    requires PossibleRun(tx, events) && tx.exit != Running
    ensures events == []
  {}

  lemma WrittenCons(events: seq<PumpEvent>, before: seq<byte>, writable: bool,
                    between: seq<byte>, stillWritable: bool, after: seq<byte>)
    requires events != []
    requires between == before + if writable then RelayBytesOf(events[0]) else []
    requires EndsRelay(events[0]) ==> !stillWritable || events[1..] == []
    requires !EndsRelay(events[0]) ==> stillWritable == writable
    requires !writable ==> !stillWritable
    requires after == between + if stillWritable then BytesBeforeEnd(events[1..]) else []
    ensures after == before + if writable then BytesBeforeEnd(events) else []
  {}

  lemma {:induction false} WrittenFrom(tx: Tx, events: seq<PumpEvent>)
    requires PossibleRun(tx, events) && NoWriteFails(events)
    ensures Run(tx, events).written == tx.written + if tx.localWritable then BytesBeforeEnd(events) else []
    decreases |events|
  {
    if events != [] {
      var tx', rest := Step(tx, events[0]), events[1..];
      NoWriteFailsTail(events);
      WrittenFrom(tx', rest);
      StepWrites(tx, events[0]);
      if tx'.exit != Running {
        ExitEndsRun(tx', rest);
      }
      WrittenCons(events, tx.written, tx.localWritable, tx'.written, tx'.localWritable, Run(tx', rest).written);
    }
  }

  lemma NoWriteFailsTail(events: seq<PumpEvent>)
    requires NoWriteFails(events) && events != []
    ensures NoWriteFails(events[1..]) && (events[0].FromRelay? ==> events[0].writeOk)
  {
    var rest := events[1..];
    assert forall k {:trigger rest[k]} :: 0 <= k < |rest| ==> rest[k] == events[k + 1];
  }

  /** If no local write fails, the browser receives exactly the relay's bytes up to its first Eof or Close. */
  lemma WrittenIsRelayPrefix(sid: SessionId, address: seq<byte>, opening: Opening, events: seq<PumpEvent>)
    requires ValidOpening(opening) && PossibleRun(StartPump(sid, address, opening), events) && NoWriteFails(events)
    ensures Run(StartPump(sid, address, opening), events).written == BytesBeforeEnd(events)
  {
    WrittenFrom(StartPump(sid, address, opening), events);
  }

  // ---------- Nonces ----------

  lemma UploadsNoneEmpty(tx: Tx)
    requires SteadyBatches(tx) && tx.open.frames != []
    ensures NoneEmpty(Uploads(tx))
  {
    forall k | 0 <= k < |Uploads(tx)|
      ensures Uploads(tx)[k].frames != []
    {
      if k > 0 {
        assert Uploads(tx)[k] == tx.flushed[k - 1];
      }
    }
  }

  lemma UploadFirstSeqno(tx: Tx, k: nat)
    requires NumberedFrom(AllFrames(tx), tx.sid, 0)
    requires k < |Uploads(tx)| && Uploads(tx)[k].frames != []
    ensures Uploads(tx)[k].frames[0].seqno == Start(Uploads(tx), k)
  {
    StreamAt(Uploads(tx), k, 0);
    assert Stream(Uploads(tx))[Start(Uploads(tx), k)] == AllFrames(tx)[Start(Uploads(tx), k)];
  }

  lemma {:induction false} OpenNeverChanges(tx: Tx, events: seq<PumpEvent>)
    requires PossibleRun(tx, events)
    ensures Run(tx, events).open == tx.open && Run(tx, events).sid == tx.sid
    decreases |events|
  {
    if events != [] {
      OpenNeverChanges(Step(tx, events[0]), events[1..]);
    }
  }

  /** No two batches of a session are sealed under the same nonce: their first seqs strictly increase. */
  lemma NoNonceReuse(sid: SessionId, address: seq<byte>, opening: Opening, events: seq<PumpEvent>, i: nat, j: nat)
    requires ValidOpening(opening) && PossibleRun(StartPump(sid, address, opening), events)
    requires i < j < |Uploads(Run(StartPump(sid, address, opening), events))|
    ensures var uploads := Uploads(Run(StartPump(sid, address, opening), events));
            && uploads[i].frames != [] && uploads[j].frames != []
            && uploads[i].frames[0].seqno < uploads[j].frames[0].seqno
            && BuildNonce(uploads[i].frames[0].seqno) != BuildNonce(uploads[j].frames[0].seqno)
  {
    var tx := Run(StartPump(sid, address, opening), events);
    StartGood(sid, address, opening);
    RunGood(StartPump(sid, address, opening), events);
    OpenNeverChanges(StartPump(sid, address, opening), events);
    UploadsNoneEmpty(tx);
    UploadFirstSeqno(tx, i);
    UploadFirstSeqno(tx, j);
    StartRises(Uploads(tx), i, j);
    NonceInjective(Uploads(tx)[i].frames[0].seqno, Uploads(tx)[j].frames[0].seqno);
  }

  // ---------- Uploads the peer can decode ----------

  lemma OpenFramesEncodable(sid: SessionId, address: seq<byte>, opening: Opening)
    requires ValidOpening(opening) && |address| <= MAX_PAYLOAD
    ensures var frames := StartPump(sid, address, opening).open.frames;
            forall i :: 0 <= i < |frames| ==> Encodable(frames[i])
  {
    var frames, data := StartPump(sid, address, opening).open.frames, OpenFrames(sid, opening);
    forall i | 0 <= i < |frames|
      ensures Encodable(frames[i])
    {
      if i > 0 {
        assert frames[i] == data[i - 1];
      }
    }
  }

  lemma OpenFrameCount(sid: SessionId, opening: Opening)
    requires ValidOpening(opening)
    ensures |OpenFrames(sid, opening)| <= 254 <==> |OpeningBytes(opening)| <= 254 * LOCAL_SOCKET_READ_BUFFER
  {}

  /**
   The session-open batch decodes on the other side exactly when the embedded
   preface is at most 254 read buffers long.
   */
  lemma OpenBatchDecodes(sid: SessionId, address: seq<byte>, opening: Opening)
    requires ValidOpening(opening) && |address| <= MAX_PAYLOAD
    ensures var open := StartPump(sid, address, opening).open;
            DecodeBatch(EncodeBatch(open)) == Ok(open)
            <==> |OpeningBytes(opening)| <= 254 * LOCAL_SOCKET_READ_BUFFER
  {
    var open := StartPump(sid, address, opening).open;
    assert |open.frames| == 1 + |OpenFrames(sid, opening)|;
    OpenFramesEncodable(sid, address, opening);
    OpenFrameCount(sid, opening);
    BatchRoundTrip(open);
  }
}
