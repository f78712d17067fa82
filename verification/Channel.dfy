/**
 Sender, folder and receiver together: uploads land in any order or never, polls
 show any part of what landed, and the far side still sees a prefix of the stream.
 */
module Channel {
  import opened Prelude
  import opened Wire
  import opened Batches
  import opened Receiver
  import opened PeerFiles
  import opened Gaps
  import Delivery
  import Sender
  import Pumping
  import UploadSizes

  /** `files` are the uploads that reached the folder, by file id; `lost` the ones that failed. */
  datatype Net<E> = Net(tx: Sender.Tx, files: map<string, nat>, lost: set<nat>, rx: Rx<E>)

  datatype Act =
    | SenderTurn(ev: Sender.PumpEvent)
    | UploadLands(k: nat, id: string)
    | UploadFails(k: nat)
    | ReceiverPolls(poll: Delivery.Poll)

  function FolderOf<E>(net: Net<E>): Peer { Peer(Pumping.Uploads(net.tx), net.files) }

  ghost predicate Enabled<E>(link: Link<E>, net: Net<E>, act: Act) {
    match act
    case SenderTurn(ev) => Sender.Enabled(net.tx, ev)
    case UploadLands(k, id) => k < |Pumping.Uploads(net.tx)| && k !in net.lost && id !in net.files
    case UploadFails(k) => k < |Pumping.Uploads(net.tx)| && k !in net.files.Values
    case ReceiverPolls(poll) =>
      Delivery.Possible(net.rx, link, poll) && Listed(link, FolderOf(net), poll.listing)
  }

  function Step<E>(link: Link<E>, net: Net<E>, act: Act): Net<E>
    requires act.SenderTurn? ==> Sender.Enabled(net.tx, act.ev)
  {
    match act
    case SenderTurn(ev) => net.(tx := Sender.Step(net.tx, ev))
    case UploadLands(k, id) => net.(files := net.files[id := k])
    case UploadFails(k) => net.(lost := net.lost + {k})
    case ReceiverPolls(poll) => net.(rx := Delivery.PollStep(net.rx, link, poll))
  }

  ghost predicate PossibleRun<E>(link: Link<E>, net: Net<E>, acts: seq<Act>)
    decreases |acts|
  {
    acts != [] ==>
      Enabled(link, net, acts[0]) && PossibleRun(link, Step(link, net, acts[0]), acts[1..])
  }

  ghost function Run<E>(link: Link<E>, net: Net<E>, acts: seq<Act>): Net<E>
    requires PossibleRun(link, net, acts)
    decreases |acts|
  {
    if acts == [] then net else Run(link, Step(link, net, acts[0]), acts[1..])
  }

  // ---------- The sender is a well-behaved peer ----------

  ghost predicate SenderGood<E(!new)>(link: Link<E>, tx: Sender.Tx) {
    Pumping.Good(tx) && tx.open.frames != [] && tx.sid == link.sid
  }

  /** Files made by the push and flush rule cut one stream, whatever the far side makes of its frames. */
  lemma SenderIsContiguous<E(!new)>(link: Link<E>, tx: Sender.Tx)
    requires SenderGood(link, tx)
    ensures Contiguous(link, Pumping.Uploads(tx))
  {
    var batches := Pumping.Uploads(tx);
    Pumping.UploadsNoneEmpty(tx);
    forall i | 0 <= i < |batches|
      ensures ContiguousAt(link, batches[i], Start(batches, i))
    {
      forall k | 0 <= k < |batches[i].frames|
        ensures batches[i].frames[k].version == WIRE_VERSION && batches[i].frames[k].sid == link.sid
        ensures batches[i].frames[k].seqno == Start(batches, i) + k
      {
        StreamAt(batches, i, k);
        assert batches[i].frames[k] == Pumping.AllFrames(tx)[Start(batches, i) + k];
      }
    }
  }

  /** The translation accepts every frame after the first that the sender can emit. */
  ghost predicate TakesRest<E(!new)>(link: Link<E>) {
    forall f: WireFrame {:trigger link.convert(f)} ::
      f.kind == Data || f.kind == Eof || f.kind == Close ==> link.convert(f).Some?
  }

  /**
   The far side takes this session: its translation accepts the Connect frame that
   opens it and all Data, Eof and Close frames, and the opening file is within the caps.
   */
  ghost predicate Serves<E(!new)>(link: Link<E>, open: Batch) {
    && open.frames != [] && link.convert(open.frames[0]).Some?
    && TakesRest(link)
    && Readable(open)
  }

  lemma FrameIsLegal<E(!new)>(link: Link<E>, tx: Sender.Tx, i: nat, k: nat)
    requires SenderGood(link, tx) && Serves(link, tx.open)
    requires i < |Pumping.Uploads(tx)| && k < |Pumping.Uploads(tx)[i].frames|
    ensures link.convert(Pumping.Uploads(tx)[i].frames[k]).Some?
  {
    var f, at := Pumping.Uploads(tx)[i].frames[k], Start(Pumping.Uploads(tx), i) + k;
    StreamAt(Pumping.Uploads(tx), i, k);
    assert f == Pumping.AllFrames(tx)[at];
    if at == 0 {
      StartRisesFromZero(Pumping.Uploads(tx), i);
      assert f == tx.open.frames[0];
    } else {
      assert Pumping.Rank(Pumping.AllFrames(tx)[0].kind) < Pumping.Rank(f.kind) <= 3;
    }
  }

  lemma StartRisesFromZero(batches: seq<Batch>, i: nat)
    requires i < |batches| && Start(batches, i) == 0 && batches[0].frames != []
    ensures i == 0
  {
    if i > 0 {
      StartGrows(batches, 1, i);
    }
  }

  lemma {:induction false} StartGrows(batches: seq<Batch>, i: nat, j: nat)
    requires i <= j <= |batches|
    ensures Start(batches, i) <= Start(batches, j)
  {
    if i < j {
      StartGrows(batches, i, j - 1);
    }
  }

  /** A served session's files meet the whole hypothesis the receiver theorems place on a peer. */
  lemma ServedIsWellCut<E(!new)>(link: Link<E>, tx: Sender.Tx)
    requires SenderGood(link, tx) && Serves(link, tx.open)
    ensures WellCut(link, Pumping.Uploads(tx))
  {
    var batches := Pumping.Uploads(tx);
    SenderIsContiguous(link, tx);
    forall i | 0 <= i < |batches|
      ensures Legal(link, batches[i]) && Readable(batches[i])
    {
      forall k | 0 <= k < |batches[i].frames|
        ensures link.convert(batches[i].frames[k]).Some?
      {
        FrameIsLegal(link, tx, i, k);
      }
      if i > 0 {
        assert batches[i] == tx.flushed[i - 1];
        UploadSizes.SteadyReadable(tx.flushed[i - 1]);
      }
    }
  }

  /** The far side takes a session to this address with this preface. */
  ghost predicate Accepts<E(!new)>(link: Link<E>, address: seq<byte>, opening: Sender.Opening) {
    && link.convert(BuildWireFrame(Connect, link.sid, 0, address)).Some?
    && TakesRest(link)
    && UploadSizes.OpenReadable(address, opening)
  }

  lemma AcceptedIsServed<E(!new)>(link: Link<E>, address: seq<byte>, opening: Sender.Opening)
    requires Sender.ValidOpening(opening) && Accepts(link, address, opening)
    ensures Serves(link, Sender.StartPump(link.sid, address, opening).open)
  {
    UploadSizes.OpenBatchReadable(link.sid, address, opening);
  }

  /**
   Over every run of the pump, the files of an accepted session meet the hypothesis
   the receiver theorems place on a peer: contiguous, of legal kinds, within the cap.
   */
  lemma SenderIsWellCut<E(!new)>(link: Link<E>, address: seq<byte>, opening: Sender.Opening, events: seq<Sender.PumpEvent>)
    requires Sender.ValidOpening(opening) && Accepts(link, address, opening)
    requires Sender.PossibleRun(Sender.StartPump(link.sid, address, opening), events)
    ensures WellCut(link, Pumping.Uploads(Sender.Run(Sender.StartPump(link.sid, address, opening), events)))
  {
    var start := Sender.StartPump(link.sid, address, opening);
    Pumping.StartGood(link.sid, address, opening);
    Pumping.RunGood(start, events);
    Pumping.OpenNeverChanges(start, events);
    AcceptedIsServed(link, address, opening);
    ServedIsWellCut(link, Sender.Run(start, events));
  }

  lemma UploadsGrow(tx: Sender.Tx, ev: Sender.PumpEvent)
    requires Sender.Enabled(tx, ev)
    ensures Pumping.Uploads(tx) <= Pumping.Uploads(Sender.Step(tx, ev))
    ensures Sender.Step(tx, ev).open == tx.open && Sender.Step(tx, ev).sid == tx.sid
  {
    assert tx.flushed <= Sender.Step(tx, ev).flushed;
  }

  // ---------- Growing the stream ----------

  lemma {:induction false} StreamPrefix(batches: seq<Batch>, n: nat)
    requires n <= |batches|
    ensures Stream(batches[..n]) <= Stream(batches)
    decreases |batches|
  {
    if n == |batches| {
      assert batches[..n] == batches;
    } else {
      var m := |batches| - 1;
      StreamPrefix(batches[..m], n);
      assert batches[..m][..n] == batches[..n];
    }
  }

  lemma InOrderGrows<E>(rx: Rx<E>, convert: WireFrame -> Option<E>, batches: seq<Batch>, longer: seq<Batch>)
    requires batches <= longer && rx.accepted <= |Stream(batches)|
    requires Delivery.InOrder(rx, convert, Truth(batches))
    ensures Delivery.InOrder(rx, convert, Truth(longer))
  {
    assert longer[..|batches|] == batches;
    StreamPrefix(longer, |batches|);
    forall i | 0 <= i < rx.accepted
      ensures convert(Truth(longer)(i)) == Some(rx.events[i])
    {
      assert Truth(longer)(i) == Truth(batches)(i);
    }
  }

  // ---------- Every run of the whole system ----------

  /** The window is at or below every batch that the receiver cannot use, and below the end of the uploads. */
  ghost predicate Behind(accepted: nat, batches: seq<Batch>, files: map<string, nat>) {
    forall k {:trigger Start(batches, k)} ::
      0 <= k <= |batches| && Missing(Peer(batches, files), k) ==> accepted <= Start(batches, k)
  }

  ghost predicate Sound<E(!new)>(link: Link<E>, net: Net<E>) {
    var batches := Pumping.Uploads(net.tx);
    && SenderGood(link, net.tx)
    && Delivery.InOrder(net.rx, link.convert, Truth(batches))
    && net.files.Values !! net.lost
    && (forall k {:trigger k in net.files.Values} :: k in net.files.Values ==> k < |batches|)
    && Behind(net.rx.accepted, batches, net.files)
  }

  lemma BehindGrows(accepted: nat, batches: seq<Batch>, longer: seq<Batch>, files: map<string, nat>)
    requires batches <= longer && NoneEmpty(longer)
    requires forall k {:trigger k in files.Values} :: k in files.Values ==> k < |batches|
    requires Behind(accepted, batches, files)
    ensures Behind(accepted, longer, files)
  {
    var n := |batches|;
    assert longer[..n] == batches;
    assert accepted <= Start(batches, n);
    StartPrefix(longer, n, n);
    forall k | 0 <= k <= |longer| && Missing(Peer(longer, files), k)
      ensures accepted <= Start(longer, k)
    {
      if k <= n {
        StartPrefix(longer, n, k);
        assert Missing(Peer(batches, files), k);
        assert accepted <= Start(batches, k);
      } else {
        StartRises(longer, n, k);
      }
    }
  }

  lemma SenderTurnSound<E(!new)>(link: Link<E>, net: Net<E>, ev: Sender.PumpEvent)
    requires Sound(link, net) && Sender.Enabled(net.tx, ev)
    ensures Sound(link, Step(link, net, SenderTurn(ev)))
  {
    var before, after := Pumping.Uploads(net.tx), Pumping.Uploads(Sender.Step(net.tx, ev));
    Pumping.StepGood(net.tx, ev);
    UploadsGrow(net.tx, ev);
    Pumping.UploadsNoneEmpty(Sender.Step(net.tx, ev));
    assert net.rx.accepted <= Start(before, |before|);
    InOrderGrows(net.rx, link.convert, before, after);
    BehindGrows(net.rx.accepted, before, after, net.files);
  }

  lemma PollSound<E(!new)>(link: Link<E>, net: Net<E>, poll: Delivery.Poll)
    requires Sound(link, net) && Enabled(link, net, ReceiverPolls(poll))
    ensures Sound(link, Step(link, net, ReceiverPolls(poll)))
  {
    var batches := Pumping.Uploads(net.tx);
    SenderIsContiguous(link, net.tx);
    PeerIsAuthentic(link, FolderOf(net), poll.listing);
    Delivery.PollInOrder(net.rx, link, poll, Truth(batches));
    forall k | 0 <= k <= |batches| && Missing(FolderOf(net), k)
      ensures Delivery.PollStep(net.rx, link, poll).accepted <= Start(batches, k)
    {
      PollBelow(net.rx, link, FolderOf(net), poll, k);
    }
  }

  lemma LandingValues(files: map<string, nat>, id: string, k: nat)
    requires id !in files
    ensures files[id := k].Values == files.Values + {k}
  {
    var files' := files[id := k];
    assert id in files' && files'[id] == k;
    forall v | v in files.Values
      ensures v in files'.Values
    {
      var key :| key in files && files[key] == v;
      assert key in files' && files'[key] == v;
    }
  }

  lemma StepSound<E(!new)>(link: Link<E>, net: Net<E>, act: Act)
    requires Sound(link, net) && Enabled(link, net, act)
    ensures Sound(link, Step(link, net, act))
  {
    match act
    case SenderTurn(ev) => SenderTurnSound(link, net, ev);
    case UploadLands(k, id) => LandingValues(net.files, id, k);
    case UploadFails(k) =>
    case ReceiverPolls(poll) => PollSound(link, net, poll);
  }

  lemma {:induction false} RunSound<E(!new)>(link: Link<E>, net: Net<E>, acts: seq<Act>)
    requires Sound(link, net) && PossibleRun(link, net, acts)
    ensures Sound(link, Run(link, net, acts))
    decreases |acts|
  {
    if acts != [] {
      StepSound(link, net, acts[0]);
      RunSound(link, Step(link, net, acts[0]), acts[1..]);
    }
  }

  function Begin<E>(sid: SessionId, address: seq<byte>, opening: Sender.Opening, room: Option<nat>): Net<E>
    requires Sender.ValidOpening(opening)
  {
    Net(Sender.StartPump(sid, address, opening), map[], {}, Delivery.Fresh(room))
  }

  lemma BeginSound<E(!new)>(link: Link<E>, address: seq<byte>, opening: Sender.Opening, room: Option<nat>)
    requires Sender.ValidOpening(opening)
    ensures Sound(link, Begin(link.sid, address, opening, room))
  {
    Pumping.StartGood(link.sid, address, opening);
  }

  /** What was received is the translation of a prefix of what was sent, ending before any batch that is missing or over a cap. */
  ghost predicate PrefixOfSent<E(!new)>(link: Link<E>, net: Net<E>) {
    var sent, uploads := Pumping.AllFrames(net.tx), Pumping.Uploads(net.tx);
    && |net.rx.events| == net.rx.accepted <= |sent|
    && (forall i :: 0 <= i < |net.rx.events| ==> link.convert(sent[i]) == Some(net.rx.events[i]))
    && (forall k {:trigger Start(uploads, k)} :: 0 <= k < |uploads| && (k !in net.files.Values || !Readable(uploads[k])) ==>
          net.rx.accepted <= Start(uploads, k))
    && (forall k {:trigger Start(uploads, k)} :: k in net.lost && 0 <= k < |uploads| ==> net.rx.accepted <= Start(uploads, k))
  }

  lemma SoundMeansPrefix<E(!new)>(link: Link<E>, net: Net<E>)
    requires Sound(link, net)
    ensures PrefixOfSent(link, net)
  {
    var uploads := Pumping.Uploads(net.tx);
    assert net.rx.accepted <= Start(uploads, |uploads|);
    forall i | 0 <= i < |net.rx.events|
      ensures link.convert(Pumping.AllFrames(net.tx)[i]) == Some(net.rx.events[i])
    {
      assert Truth(uploads)(i) == Pumping.AllFrames(net.tx)[i];
    }
  }

  /**
   Whatever order uploads land in, whichever are lost, and whatever polls show:
   the far side has received the translation of a prefix of the frames sent, and
   that prefix ends before the first batch that has not landed or is over a cap.
   This holds for any translation, also one that refuses frames.
   */
  lemma ReceivedIsPrefixOfSent<E(!new)>(link: Link<E>, address: seq<byte>, opening: Sender.Opening,
                                        room: Option<nat>, acts: seq<Act>)
    requires Sender.ValidOpening(opening)
    requires PossibleRun(link, Begin(link.sid, address, opening, room), acts)
    ensures PrefixOfSent(link, Run(link, Begin(link.sid, address, opening, room), acts))
  {
    BeginSound(link, address, opening, room);
    RunSound(link, Begin(link.sid, address, opening, room), acts);
    SoundMeansPrefix(link, Run(link, Begin(link.sid, address, opening, room), acts));
  }

  // ---------- End to end in bytes ----------

  function SenderEvents(acts: seq<Act>): seq<Sender.PumpEvent> {
    if acts == [] then []
    else (if acts[0].SenderTurn? then [acts[0].ev] else []) + SenderEvents(acts[1..])
  }

  ghost predicate SenderMoves(tx: Sender.Tx, act: Act, tx': Sender.Tx) {
    if act.SenderTurn? then Sender.Enabled(tx, act.ev) && tx' == Sender.Step(tx, act.ev) else tx' == tx
  }

  lemma StepMovesSender<E(!new)>(link: Link<E>, net: Net<E>, act: Act)
    requires Enabled(link, net, act)
    ensures SenderMoves(net.tx, act, Step(link, net, act).tx)
  {}

  lemma ProjectCons(tx: Sender.Tx, acts: seq<Act>, tx': Sender.Tx)
    requires acts != [] && SenderMoves(tx, acts[0], tx')
    requires Sender.PossibleRun(tx', SenderEvents(acts[1..]))
    ensures Sender.PossibleRun(tx, SenderEvents(acts))
    ensures Sender.Run(tx, SenderEvents(acts)) == Sender.Run(tx', SenderEvents(acts[1..]))
  {
    var events, rest := SenderEvents(acts), SenderEvents(acts[1..]);
    if acts[0].SenderTurn? {
      assert events[0] == acts[0].ev && events[1..] == rest;
    } else {
      assert events == rest;
    }
  }

  /** The sender's part of a system run is a run of the pump. */
  lemma {:induction false} SenderProjection<E(!new)>(link: Link<E>, net: Net<E>, acts: seq<Act>)
    requires PossibleRun(link, net, acts)
    ensures Sender.PossibleRun(net.tx, SenderEvents(acts))
    ensures Run(link, net, acts).tx == Sender.Run(net.tx, SenderEvents(acts))
    decreases |acts|
  {
    if acts != [] {
      StepMovesSender(link, net, acts[0]);
      SenderProjection(link, Step(link, net, acts[0]), acts[1..]);
      ProjectCons(net.tx, acts, Step(link, net, acts[0]).tx);
    }
  }

  lemma {:induction false} DataPrefix(frames: seq<WireFrame>, n: nat)
    requires n <= |frames|
    ensures Sender.DataBytes(frames[..n]) <= Sender.DataBytes(frames)
    decreases |frames|
  {
    if n < |frames| {
      var m := |frames| - 1;
      DataPrefix(frames[..m], n);
      assert frames[..m][..n] == frames[..n];
    } else {
      assert frames[..n] == frames;
    }
  }

  /**
   The Data bytes among the frames handed over on the far side are a prefix of the
   bytes taken from the near side's socket, at every point of every run.
   */
  lemma BytesArriveInOrder<E(!new)>(link: Link<E>, address: seq<byte>, opening: Sender.Opening,
                                    room: Option<nat>, acts: seq<Act>)
    requires Sender.ValidOpening(opening)
    requires PossibleRun(link, Begin(link.sid, address, opening, room), acts)
    ensures var net := Run(link, Begin(link.sid, address, opening, room), acts);
            var sent := Pumping.AllFrames(net.tx);
            && net.rx.accepted <= |sent|
            && Sender.DataBytes(sent[..net.rx.accepted])
               <= Pumping.OpeningBytes(opening) + Pumping.ReadBytes(SenderEvents(acts))
  {
    var start := Begin<E>(link.sid, address, opening, room);
    ReceivedIsPrefixOfSent(link, address, opening, room, acts);
    SentBytes(link, address, opening, room, acts);
    DataPrefix(Pumping.AllFrames(Run(link, start, acts).tx), Run(link, start, acts).rx.accepted);
  }

  lemma SentBytes<E(!new)>(link: Link<E>, address: seq<byte>, opening: Sender.Opening,
                           room: Option<nat>, acts: seq<Act>)
    requires Sender.ValidOpening(opening)
    requires PossibleRun(link, Begin(link.sid, address, opening, room), acts)
    ensures Sender.DataBytes(Pumping.AllFrames(Run(link, Begin(link.sid, address, opening, room), acts).tx))
         == Pumping.OpeningBytes(opening) + Pumping.ReadBytes(SenderEvents(acts))
  {
    SenderProjection(link, Begin(link.sid, address, opening, room), acts);
    Pumping.SenderConserves(link.sid, address, opening, SenderEvents(acts));
  }
}
