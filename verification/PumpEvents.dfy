/**
 The pump from outside: which frames a session has sent and how it ended, as a
 function of the events alone.
 */
module PumpEvents {
  import opened Prelude
  import opened Wire
  import opened Receiver
  import opened Sender
  import opened Pumping

  /** What a frame says, without its numbering. */
  datatype Said = Said(kind: FrameKind, payload: seq<byte>)

  ghost function Spoken(frames: seq<WireFrame>): (s: seq<Said>)
    ensures |s| == |frames|
  {
    seq(|frames|, i requires 0 <= i < |frames| => Said(frames[i].kind, frames[i].payload))
  }

  // ---------- What the events ask for ----------

  ghost predicate RelayEnded(events: seq<PumpEvent>) {
    exists k {:trigger events[k]} :: 0 <= k < |events| && events[k].FromRelay? && events[k].frame == InEof
  }

  ghost predicate LocalEnded(events: seq<PumpEvent>) { LocalEof in events }

  /** The last event breaks the session: the local side fails, on a read or on a write that was still due. */
  ghost predicate Breaks(events: seq<PumpEvent>) {
    && events != []
    && var last, before := events[|events| - 1], events[..|events| - 1];
    || last == LocalError
    || (last.FromRelay? && last.frame.InData? && !last.writeOk && !RelayEnded(before))
  }

  /** The last event is the second of the two half-closes. */
  ghost predicate Completes(events: seq<PumpEvent>) {
    && events != []
    && var last, before := events[|events| - 1], events[..|events| - 1];
    || (last.FromRelay? && last.frame == InEof && LocalEnded(before))
    || (last == LocalEof && RelayEnded(before))
  }

  /** The last event is the relay's Close, or the mailbox going away. */
  ghost predicate Dismisses(events: seq<PumpEvent>) {
    && events != []
    && var last := events[|events| - 1];
    last.MailboxClosed? || (last.FromRelay? && last.frame == InClose)
  }

  /** How the pump ends, by the events. */
  ghost function ExitOf(events: seq<PumpEvent>): Exit {
    if Breaks(events) then ExitErr
    else if Completes(events) || Dismisses(events) then ExitOk
    else Running
  }

  /** Each local read says its bytes, and the local end of file says Eof. */
  ghost function Emissions(events: seq<PumpEvent>): seq<Said> {
    if events == [] then []
    else
      var last := events[|events| - 1];
      Emissions(events[..|events| - 1])
      + (if last.LocalData? then [Said(Data, last.bytes)] else if last == LocalEof then [Said(Eof, [])] else [])
  }

  /** A failure and the second half-close say Close, last of all. */
  ghost function Farewell(events: seq<PumpEvent>): seq<Said> {
    if Breaks(events) || Completes(events) then [Said(Close, [])] else []
  }

  // ---------- One event ----------

  lemma SpokenAppend(frames: seq<WireFrame>, f: WireFrame)
    ensures Spoken(frames + [f]) == Spoken(frames) + [Said(f.kind, f.payload)]
  {}

  lemma HistorySnoc(history: seq<PumpEvent>, ev: PumpEvent)
    ensures (history + [ev])[..|history|] == history && (history + [ev])[|history|] == ev
    ensures RelayEnded(history + [ev]) <==> RelayEnded(history) || (ev.FromRelay? && ev.frame == InEof)
    ensures LocalEnded(history + [ev]) <==> LocalEnded(history) || ev == LocalEof
  {
    var all := history + [ev];
    assert all[..|history|] == history;
    if RelayEnded(history) {
      var k :| 0 <= k < |history| && history[k].FromRelay? && history[k].frame == InEof;
      assert all[k] == history[k];
    }
    assert all[|history|] == ev;
  }

  lemma {:induction false} ControlSpeaks(tx: Tx, kind: FrameKind)
    requires tx.next < U64_LIMIT
    ensures Spoken(AllFrames(EmitControl(tx, kind))) == Spoken(AllFrames(tx)) + [Said(kind, [])]
  {
    ControlAppends(tx, kind);
    SpokenAppend(AllFrames(tx), BuildWireFrame(kind, tx.sid, tx.next, []));
  }

  lemma {:induction false} DataSpeaks(tx: Tx, bytes: seq<byte>, now: int)
    requires tx.next < U64_LIMIT
    ensures Spoken(AllFrames(Emit(tx, Data, bytes, false, now))) == Spoken(AllFrames(tx)) + [Said(Data, bytes)]
  {
    EmitAppends(tx, Data, bytes, false, now);
    SpokenAppend(AllFrames(tx), BuildWireFrame(Data, tx.sid, tx.next, bytes));
  }

  /** What a turn says, by the two half-closes so far. */
  ghost function TurnSays(ev: PumpEvent, relayEnded: bool, localEnded: bool): seq<Said> {
    match ev
    case FromRelay(InData(_), ok) => if !ok && !relayEnded then [Said(Close, [])] else []
    case FromRelay(InEof, _) => if localEnded then [Said(Close, [])] else []
    case FromRelay(InClose, _) => []
    case MailboxClosed => []
    case TimerFired => []
    case LocalData(bytes, _) => [Said(Data, bytes)]
    case LocalEof => [Said(Eof, [])] + (if relayEnded then [Said(Close, [])] else [])
    case LocalError => [Said(Close, [])]
  }

  lemma {:induction false} RelaySpeaks(tx: Tx, frame: Inbound, ok: bool)
    requires Enabled(tx, FromRelay(frame, ok))
    ensures Spoken(AllFrames(Step(tx, FromRelay(frame, ok))))
         == Spoken(AllFrames(tx)) + TurnSays(FromRelay(frame, ok), !tx.localWritable, tx.localReadClosed)
  {
    match frame
    case InData(bytes) =>
      ControlSpeaks(tx, Close);
      assert AllFrames(EmitClose(tx, ExitErr)) == AllFrames(EmitControl(tx, Close));
      assert AllFrames(tx.(written := tx.written + bytes)) == AllFrames(tx);
    case InEof =>
      var shut := tx.(localWritable := false);
      assert AllFrames(shut) == AllFrames(tx);
      ControlSpeaks(shut, Close);
      assert AllFrames(EmitClose(shut, ExitOk)) == AllFrames(EmitControl(shut, Close));
    case InClose =>
      FlushKeepsFrames(tx);
      assert AllFrames(Flush(tx).(exit := ExitOk)) == AllFrames(Flush(tx));
  }

  lemma {:induction false} LocalEofSpeaks(tx: Tx)
    requires Enabled(tx, LocalEof)
    ensures Spoken(AllFrames(Step(tx, LocalEof)))
         == Spoken(AllFrames(tx)) + TurnSays(LocalEof, !tx.localWritable, tx.localReadClosed)
  {
    var shut := EmitControl(tx, Eof).(localReadClosed := true);
    ControlSpeaks(tx, Eof);
    assert AllFrames(shut) == AllFrames(EmitControl(tx, Eof));
    if !tx.localWritable {
      ControlSpeaks(shut, Close);
      assert AllFrames(EmitControl(shut, Close).(exit := ExitOk)) == AllFrames(EmitControl(shut, Close));
    }
  }

  lemma {:induction false} TurnSpeaks(tx: Tx, ev: PumpEvent)
    requires Enabled(tx, ev)
    ensures Spoken(AllFrames(Step(tx, ev)))
         == Spoken(AllFrames(tx)) + TurnSays(ev, !tx.localWritable, tx.localReadClosed)
  {
    match ev
    case FromRelay(frame, ok) => RelaySpeaks(tx, frame, ok);
    case MailboxClosed =>
      FlushKeepsFrames(tx);
      assert AllFrames(Flush(tx).(exit := ExitOk)) == AllFrames(Flush(tx));
    case TimerFired => FlushKeepsFrames(tx);
    case LocalData(bytes, now) => DataSpeaks(tx, bytes, now);
    case LocalEof => LocalEofSpeaks(tx);
    case LocalError =>
      ControlSpeaks(tx, Close);
      assert AllFrames(EmitControl(tx, Close).(exit := ExitErr)) == AllFrames(EmitControl(tx, Close));
  }

  // ---------- Every run ----------

  /** The session's flags and its end agree with the events so far. */
  ghost predicate FlagsTrack(tx: Tx, history: seq<PumpEvent>) {
    && tx.localWritable == !RelayEnded(history)
    && tx.localReadClosed == LocalEnded(history)
    && tx.exit == ExitOf(history)
  }

  ghost predicate FramesTrack(tx: Tx, opening: seq<Said>, history: seq<PumpEvent>) {
    Spoken(AllFrames(tx)) == opening + Emissions(history) + Farewell(history)
  }

  lemma FlagsStep(tx: Tx, history: seq<PumpEvent>, ev: PumpEvent)
    requires FlagsTrack(tx, history) && Enabled(tx, ev)
    ensures FlagsTrack(Step(tx, ev), history + [ev])
  {
    HistorySnoc(history, ev);
  }

  lemma SaysStep(history: seq<PumpEvent>, ev: PumpEvent)
    requires ExitOf(history) == Running
    ensures Emissions(history) + Farewell(history) + TurnSays(ev, RelayEnded(history), LocalEnded(history))
         == Emissions(history + [ev]) + Farewell(history + [ev])
  {
    HistorySnoc(history, ev);
  }

  lemma {:induction false} FramesStep(tx: Tx, opening: seq<Said>, history: seq<PumpEvent>, ev: PumpEvent)
    requires FlagsTrack(tx, history) && FramesTrack(tx, opening, history) && Enabled(tx, ev)
    ensures FramesTrack(Step(tx, ev), opening, history + [ev])
  {
    TurnSpeaks(tx, ev);
    SaysStep(history, ev);
    Regroup(opening, Emissions(history), Farewell(history), TurnSays(ev, RelayEnded(history), LocalEnded(history)),
            Emissions(history + [ev]), Farewell(history + [ev]));
  }

  lemma Regroup(o: seq<Said>, a: seq<Said>, b: seq<Said>, c: seq<Said>, d: seq<Said>, e: seq<Said>)
    requires a + b + c == d + e
    ensures o + a + b + c == o + d + e
  {
    assert o + a + b + c == o + (a + b + c);
    assert o + (d + e) == o + d + e;
  }

  lemma {:induction false} RunTracks(tx: Tx, opening: seq<Said>, history: seq<PumpEvent>, events: seq<PumpEvent>)
    requires FlagsTrack(tx, history) && FramesTrack(tx, opening, history) && PossibleRun(tx, events)
    ensures FlagsTrack(Run(tx, events), history + events) && FramesTrack(Run(tx, events), opening, history + events)
    decreases |events|
  {
    if events == [] {
      assert history + events == history;
    } else {
      FlagsStep(tx, history, events[0]);
      FramesStep(tx, opening, history, events[0]);
      RunTracks(Step(tx, events[0]), opening, history + [events[0]], events[1..]);
      assert history + [events[0]] + events[1..] == history + events;
    }
  }

  /**
   Over every run of a session: after the opening, its frames say exactly the local
   reads, one Data frame each, then Eof where the local side ended, and Close last
   where a failure or the second half-close asks for it; and the pump has ended, or
   not, exactly as the events say.
   */
  lemma {:induction false} FramesByEvents(sid: SessionId, address: seq<byte>, opening: Opening, events: seq<PumpEvent>)
    requires ValidOpening(opening) && PossibleRun(StartPump(sid, address, opening), events)
    ensures var tx := Run(StartPump(sid, address, opening), events);
            && Spoken(AllFrames(tx))
               == [Said(Connect, address)] + Spoken(OpenFrames(sid, opening)) + Emissions(events) + Farewell(events)
            && tx.exit == ExitOf(events)
  {
    var start := StartPump(sid, address, opening);
    var said := [Said(Connect, address)] + Spoken(OpenFrames(sid, opening));
    StartFrames(sid, address, opening);
    assert Spoken(AllFrames(start)) == said + [] + [];
    RunTracks(start, said, [], events);
    assert [] + events == events;
  }

  // ---------- What a reader of the wire can tell ----------

  ghost predicate Sends(tx: Tx, kind: FrameKind) {
    exists i {:trigger AllFrames(tx)[i]} :: 0 <= i < |AllFrames(tx)| && AllFrames(tx)[i].kind == kind
  }

  ghost predicate Speaks(said: seq<Said>, kind: FrameKind) {
    exists i {:trigger said[i]} :: 0 <= i < |said| && said[i].kind == kind
  }

  ghost predicate ReadsNonempty(events: seq<PumpEvent>) {
    forall k {:trigger events[k]} :: 0 <= k < |events| ==> events[k].LocalData? ==> events[k].bytes != []
  }

  ghost predicate DataNonempty(said: seq<Said>) {
    forall i {:trigger said[i]} :: 0 <= i < |said| ==> said[i].kind == Data ==> said[i].payload != []
  }

  lemma {:induction false} PossibleReads(tx: Tx, events: seq<PumpEvent>)
    requires PossibleRun(tx, events)
    ensures ReadsNonempty(events)
    decreases |events|
  {
    if events != [] {
      PossibleReads(Step(tx, events[0]), events[1..]);
      assert forall k {:trigger events[k]} :: 0 < k < |events| ==> events[k] == events[1..][k - 1];
    }
  }

  lemma {:induction false} EmissionKinds(events: seq<PumpEvent>)
    ensures !Speaks(Emissions(events), Close)
    ensures Speaks(Emissions(events), Eof) <==> LocalEnded(events)
    ensures ReadsNonempty(events) ==> DataNonempty(Emissions(events))
  {
    if events != [] {
      var n := |events| - 1;
      var front, last := events[..n], events[n];
      EmissionKinds(front);
      assert events == front + [last];
      SpeaksAppend(Emissions(front), if last.LocalData? then [Said(Data, last.bytes)] else if last == LocalEof then [Said(Eof, [])] else []);
    }
  }

  lemma SpeaksAppend(a: seq<Said>, b: seq<Said>)
    ensures forall kind :: Speaks(a + b, kind) <==> Speaks(a, kind) || Speaks(b, kind)
    ensures DataNonempty(a + b) <==> DataNonempty(a) && DataNonempty(b)
  {
    var c := a + b;
    assert forall i {:trigger a[i]} :: 0 <= i < |a| ==> c[i] == a[i];
    assert forall i {:trigger b[i]} :: 0 <= i < |b| ==> c[|a| + i] == b[i];
    assert forall i {:trigger c[i]} :: 0 <= i < |c| ==> c[i] == if i < |a| then a[i] else b[i - |a|];
  }

  lemma OpeningKinds(sid: SessionId, address: seq<byte>, opening: Opening)
    requires ValidOpening(opening)
    ensures var said := [Said(Connect, address)] + Spoken(OpenFrames(sid, opening));
            !Speaks(said, Eof) && !Speaks(said, Close) && DataNonempty(said)
  {
    var data := OpenFrames(sid, opening);
    SpeaksAppend([Said(Connect, address)], Spoken(data));
    assert forall i {:trigger Spoken(data)[i]} :: 0 <= i < |data| ==> data[i].kind == Data && data[i].payload != [];
  }

  lemma SpokenSends(tx: Tx)
    ensures forall kind :: Sends(tx, kind) <==> Speaks(Spoken(AllFrames(tx)), kind)
  {
    var frames, said := AllFrames(tx), Spoken(AllFrames(tx));
    assert forall i {:trigger frames[i]} {:trigger said[i]} :: 0 <= i < |frames| ==> said[i] == Said(frames[i].kind, frames[i].payload);
  }

  /**
   Over every run: an Eof frame is on the wire if and only if the local side ended, a
   Close frame if and only if a read or a due write failed or both sides half-closed,
   and no Data frame is empty.
   */
  lemma {:induction false} KindsByEvents(sid: SessionId, address: seq<byte>, opening: Opening, events: seq<PumpEvent>)
    requires ValidOpening(opening) && PossibleRun(StartPump(sid, address, opening), events)
    ensures var tx := Run(StartPump(sid, address, opening), events);
            && (Sends(tx, Eof) <==> LocalEnded(events))
            && (Sends(tx, Close) <==> Breaks(events) || Completes(events))
            && DataNonempty(Spoken(AllFrames(tx)))
  {
    var tx := Run(StartPump(sid, address, opening), events);
    var said := [Said(Connect, address)] + Spoken(OpenFrames(sid, opening));
    FramesByEvents(sid, address, opening, events);
    PossibleReads(StartPump(sid, address, opening), events);
    EmissionKinds(events);
    OpeningKinds(sid, address, opening);
    SpeaksAppend(said, Emissions(events));
    SpeaksAppend(said + Emissions(events), Farewell(events));
    FarewellKinds(events);
    SpokenSends(tx);
  }

  lemma FarewellKinds(events: seq<PumpEvent>)
    ensures !Speaks(Farewell(events), Eof) && DataNonempty(Farewell(events))
    ensures Speaks(Farewell(events), Close) <==> Breaks(events) || Completes(events)
  {
    if Breaks(events) || Completes(events) {
      assert Farewell(events)[0].kind == Close;
    }
  }

  // ---------- Waiting ends ----------

  /** When the timer fires, what was waiting is uploaded, as one batch, and nothing waits any more. */
  lemma TimerUploads(tx: Tx)
    requires Good(tx) && Enabled(tx, TimerFired)
    ensures tx.pending != [] && Step(tx, TimerFired).pending == [] && Step(tx, TimerFired).flushDeadline == None
    ensures Step(tx, TimerFired).flushed == tx.flushed + [Batch(tx.pending)]
  {}
}
