/**
 The whole mailbox for a session that the far side accepts: nothing is deleted
 undelivered, and a poll that sees everything delivers everything.
 */
module EndToEnd {
  import opened Prelude
  import opened Wire
  import opened Batches
  import opened Receiver
  import opened PeerFiles
  import opened Channel
  import Delivery
  import Sender
  import Pumping
  import UploadSizes

  // ---------- The window stays on a batch boundary ----------

  /** More batches and more files leave what is settled as it is. */
  lemma SettledGrows<E>(rx: Rx<E>, peer: Peer, longer: Peer, i: nat)
    requires Settled(rx, peer, i) && peer.batches <= longer.batches
    requires forall id {:trigger id in peer.files} :: id in peer.files ==> id in longer.files && longer.files[id] == peer.files[id]
    ensures Settled(rx, longer, i)
  {
    var n := |peer.batches|;
    assert longer.batches[..n] == peer.batches;
    StartPrefix(longer.batches, n, i);
  }

  lemma ClosedStep<E(!new)>(link: Link<E>, net: Net<E>, act: Act)
    requires Enabled(link, net, act) && net.rx.room == Some(0)
    ensures Step(link, net, act).rx.room == Some(0)
  {
    if act.ReceiverPolls? {
      ClosedPoll(net.rx, link, act.poll);
    }
  }

  lemma {:induction false} ClosedRun<E(!new)>(link: Link<E>, net: Net<E>, acts: seq<Act>)
    requires PossibleRun(link, net, acts) && net.rx.room == Some(0)
    ensures Run(link, net, acts).rx.room == Some(0)
    decreases |acts|
  {
    if acts != [] {
      ClosedStep(link, net, acts[0]);
      ClosedRun(link, Step(link, net, acts[0]), acts[1..]);
    }
  }

  lemma StepSettled<E(!new)>(link: Link<E>, net: Net<E>, act: Act, i: nat) returns (j: nat)
    requires Sound(link, net) && Serves(link, net.tx.open) && Enabled(link, net, act)
    requires Settled(net.rx, FolderOf(net), i) && Step(link, net, act).rx.room != Some(0)
    ensures Settled(Step(link, net, act).rx, FolderOf(Step(link, net, act)), j)
    ensures Step(link, net, act).tx.open == net.tx.open
  {
    j := i;
    match act
    case SenderTurn(ev) =>
      UploadsGrow(net.tx, ev);
      SettledGrows(net.rx, FolderOf(net), FolderOf(Step(link, net, act)), i);
    case UploadLands(k, id) => SettledGrows(net.rx, FolderOf(net), FolderOf(Step(link, net, act)), i);
    case UploadFails(k) =>
    case ReceiverPolls(poll) =>
      ServedIsWellCut(link, net.tx);
      j := PollSettled(net.rx, link, FolderOf(net), poll, i);
  }

  /** After every run of an accepted session, unless the driver is gone. */
  lemma {:induction false} SystemSettled<E(!new)>(link: Link<E>, net: Net<E>, acts: seq<Act>, i: nat) returns (j: nat)
    requires Sound(link, net) && Serves(link, net.tx.open) && PossibleRun(link, net, acts)
    requires Settled(net.rx, FolderOf(net), i) && Run(link, net, acts).rx.room != Some(0)
    ensures Settled(Run(link, net, acts).rx, FolderOf(Run(link, net, acts)), j)
    ensures Run(link, net, acts).tx.open == net.tx.open
    decreases |acts|
  {
    j := i;
    if acts != [] {
      var next := Step(link, net, acts[0]);
      if next.rx.room == Some(0) {
        ClosedRun(link, next, acts[1..]);
        assert false;
      }
      j := StepSettled(link, net, acts[0], i);
      StepSound(link, net, acts[0]);
      j := SystemSettled(link, next, acts[1..], j);
    }
  }

  lemma SessionSettled<E(!new)>(link: Link<E>, address: seq<byte>, opening: Sender.Opening,
                                room: Option<nat>, acts: seq<Act>) returns (j: nat)
    requires Sender.ValidOpening(opening) && Accepts(link, address, opening)
    requires PossibleRun(link, Begin(link.sid, address, opening, room), acts)
    requires Run(link, Begin(link.sid, address, opening, room), acts).rx.room != Some(0)
    ensures var net := Run(link, Begin(link.sid, address, opening, room), acts);
            Sound(link, net) && Settled(net.rx, FolderOf(net), j) && Serves(link, net.tx.open)
  {
    var start := Begin<E>(link.sid, address, opening, room);
    BeginSound(link, address, opening, room);
    AcceptedIsServed(link, address, opening);
    j := SystemSettled(link, start, acts, 0);
    RunSound(link, start, acts);
  }

  /**
   At every point of every run of an accepted session, while its driver is still
   receiving: a file the far side deleted is one of the sender's uploads, and every
   frame of it stands in the mailbox.
   */
  lemma NothingDeletedIsLost<E(!new)>(link: Link<E>, address: seq<byte>, opening: Sender.Opening,
                                      room: Option<nat>, acts: seq<Act>, id: string)
    requires Sender.ValidOpening(opening) && Accepts(link, address, opening)
    requires PossibleRun(link, Begin(link.sid, address, opening, room), acts)
    requires Run(link, Begin(link.sid, address, opening, room), acts).rx.room != Some(0)
    requires id in Run(link, Begin(link.sid, address, opening, room), acts).rx.deleted
    ensures var net := Run(link, Begin(link.sid, address, opening, room), acts);
            var uploads := Pumping.Uploads(net.tx);
            && id in net.files && net.files[id] < |uploads|
            && Delivered(net.rx, link.convert, uploads[net.files[id]], Start(uploads, net.files[id]))
  {
    var net := Run(link, Begin(link.sid, address, opening, room), acts);
    var i := SessionSettled(link, address, opening, room, acts);
    SenderIsContiguous(link, net.tx);
    SettledIsDelivered(net.rx, link, FolderOf(net), i, id);
  }

  // ---------- Everything shown is delivered ----------

  lemma OpenPoll<E>(rx: Rx<E>, link: Link<E>, poll: Delivery.Poll)
    requires rx.room == None
    ensures Delivery.PollStep(rx, link, poll).room == None
  {
    OpenStaysOpen(Delivery.Swept(rx, link, poll), SortBy(poll.arrivals, SeqnoOfPrepared), link.convert);
  }

  lemma {:induction false} OpenRun<E(!new)>(link: Link<E>, net: Net<E>, acts: seq<Act>)
    requires PossibleRun(link, net, acts) && net.rx.room == None
    ensures Run(link, net, acts).rx.room == None
    decreases |acts|
  {
    if acts != [] {
      if acts[0].ReceiverPolls? {
        OpenPoll(net.rx, link, acts[0].poll);
      }
      OpenRun(link, Step(link, net, acts[0]), acts[1..]);
    }
  }

  /** A poll whose listing shows every upload, and whose downloads all open. */
  ghost predicate ShowsAll<E>(link: Link<E>, net: Net<E>, poll: Delivery.Poll) {
    && poll.registered
    && forall m {:trigger Usable(link, FolderOf(net), poll.listing, m)} ::
         0 <= m < |Pumping.Uploads(net.tx)| ==> Usable(link, FolderOf(net), poll.listing, m)
  }

  /** Every frame uploaded so far stands in the mailbox, translated, and nothing else does. */
  ghost predicate AllDelivered<E>(link: Link<E>, net: Net<E>) {
    var sent := Stream(Pumping.Uploads(net.tx));
    && |net.rx.events| == net.rx.accepted == |sent|
    && forall i {:trigger sent[i]} :: 0 <= i < |sent| ==> link.convert(sent[i]) == Some(net.rx.events[i])
  }

  /**
   Progress, on the condition it needs: after any run of an accepted session whose
   driver stays, one poll that sees and opens every upload completes the delivery.
   Once the pump has returned, those are all the frames of the session.
   */
  lemma AllShownAllDelivered<E(!new)>(link: Link<E>, address: seq<byte>, opening: Sender.Opening,
                                      acts: seq<Act>, poll: Delivery.Poll)
    requires Sender.ValidOpening(opening) && Accepts(link, address, opening)
    requires PossibleRun(link, Begin(link.sid, address, opening, None), acts)
    requires var net := Run(link, Begin(link.sid, address, opening, None), acts);
             Enabled(link, net, ReceiverPolls(poll)) && ShowsAll(link, net, poll)
    ensures var net := Run(link, Begin(link.sid, address, opening, None), acts);
            && AllDelivered(link, Step(link, net, ReceiverPolls(poll)))
            && (net.tx.exit != Sender.Running ==> Stream(Pumping.Uploads(net.tx)) == Pumping.AllFrames(net.tx))
  {
    var start := Begin<E>(link.sid, address, opening, None);
    var net := Run(link, start, acts);
    OpenRun(link, start, acts);
    var i := SessionSettled(link, address, opening, None, acts);
    PollDeliversAll(link, net, poll, i);
    if net.tx.exit != Sender.Running {
      assert Stream(Pumping.Uploads(net.tx)) + [] == Pumping.AllFrames(net.tx);
    }
  }

  lemma PollDeliversAll<E(!new)>(link: Link<E>, net: Net<E>, poll: Delivery.Poll, i: nat)
    requires Sound(link, net) && Serves(link, net.tx.open) && Settled(net.rx, FolderOf(net), i) && net.rx.room == None
    requires Enabled(link, net, ReceiverPolls(poll)) && ShowsAll(link, net, poll)
    ensures AllDelivered(link, Step(link, net, ReceiverPolls(poll)))
  {
    var peer, after := FolderOf(net), Step(link, net, ReceiverPolls(poll));
    var n := |peer.batches|;
    ServedIsWellCut(link, net.tx);
    SequentialEndUnique(link, peer, poll.listing, i, n);
    PollReaches(net.rx, link, peer, poll, i);
    StepSound(link, net, ReceiverPolls(poll));
    SoundMeansPrefix(link, after);
    WholePrefix(link, after);
  }

  lemma WholePrefix<E(!new)>(link: Link<E>, net: Net<E>)
    requires PrefixOfSent(link, net) && net.rx.accepted == |Stream(Pumping.Uploads(net.tx))|
    ensures AllDelivered(link, net)
  {
    var sent := Stream(Pumping.Uploads(net.tx));
    forall i | 0 <= i < |sent|
      ensures link.convert(sent[i]) == Some(net.rx.events[i])
    {
      assert Pumping.AllFrames(net.tx)[i] == sent[i];
    }
  }

  // ---------- Sessions the far side refuses ----------

  lemma OpenOfRun<E(!new)>(link: Link<E>, address: seq<byte>, opening: Sender.Opening, room: Option<nat>, acts: seq<Act>)
    requires Sender.ValidOpening(opening)
    requires PossibleRun(link, Begin(link.sid, address, opening, room), acts)
    ensures Run(link, Begin(link.sid, address, opening, room), acts).tx.open
         == Sender.StartPump(link.sid, address, opening).open
  {
    var start := Begin<E>(link.sid, address, opening, room);
    SenderProjection(link, start, acts);
    Pumping.OpenNeverChanges(start.tx, SenderEvents(acts));
  }

  lemma FirstFrame(tx: Sender.Tx)
    requires tx.open.frames != []
    ensures Pumping.AllFrames(tx) != [] && Pumping.AllFrames(tx)[0] == tx.open.frames[0]
  {
    StreamAt(Pumping.Uploads(tx), 0, 0);
  }

  /** If the far side refuses the Connect frame, no run hands over anything. */
  lemma RefusedNeverStarts<E(!new)>(link: Link<E>, address: seq<byte>, opening: Sender.Opening,
                                    room: Option<nat>, acts: seq<Act>)
    requires Sender.ValidOpening(opening)
    requires link.convert(BuildWireFrame(Connect, link.sid, 0, address)).None?
    requires PossibleRun(link, Begin(link.sid, address, opening, room), acts)
    ensures Run(link, Begin(link.sid, address, opening, room), acts).rx.events == []
  {
    var net := Run(link, Begin(link.sid, address, opening, room), acts);
    ReceivedIsPrefixOfSent(link, address, opening, room, acts);
    OpenOfRun(link, address, opening, room, acts);
    FirstFrame(net.tx);
    if net.rx.events != [] {
      StartedAccepted(link, net);
    }
  }

  lemma StartedAccepted<E(!new)>(link: Link<E>, net: Net<E>)
    requires PrefixOfSent(link, net) && net.rx.events != []
    ensures Pumping.AllFrames(net.tx) != [] && link.convert(Pumping.AllFrames(net.tx)[0]).Some?
  {}

  /** Nor does any run of a session whose open batch is over a cap: it is discarded or does not decode. */
  lemma UnreadableNeverStarts<E(!new)>(link: Link<E>, address: seq<byte>, opening: Sender.Opening,
                                       room: Option<nat>, acts: seq<Act>)
    requires Sender.ValidOpening(opening) && !UploadSizes.OpenReadable(address, opening)
    requires PossibleRun(link, Begin(link.sid, address, opening, room), acts)
    ensures Run(link, Begin(link.sid, address, opening, room), acts).rx.events == []
  {
    var net := Run(link, Begin(link.sid, address, opening, room), acts);
    ReceivedIsPrefixOfSent(link, address, opening, room, acts);
    OpenOfRun(link, address, opening, room, acts);
    UploadSizes.OpenBatchReadable(link.sid, address, opening);
    assert !Readable(Pumping.Uploads(net.tx)[0]);
    assert net.rx.accepted <= Start(Pumping.Uploads(net.tx), 0);
  }

  /**
   A far side that takes Data, Eof and Close, like the relay, hands over something in
   some run only of a session it accepts.
   */
  lemma UnacceptedNeverStarts<E(!new)>(link: Link<E>, address: seq<byte>, opening: Sender.Opening,
                                       room: Option<nat>, acts: seq<Act>)
    requires Sender.ValidOpening(opening) && TakesRest(link) && !Accepts(link, address, opening)
    requires PossibleRun(link, Begin(link.sid, address, opening, room), acts)
    ensures Run(link, Begin(link.sid, address, opening, room), acts).rx.events == []
  {
    if link.convert(BuildWireFrame(Connect, link.sid, 0, address)).None? {
      RefusedNeverStarts(link, address, opening, room, acts);
    } else {
      UnreadableNeverStarts(link, address, opening, room, acts);
    }
  }
}
