/**
 What each frame kind becomes on the far side, over every run: half-closes arrive as
 half-closes and closes as closes, in both directions.
 */
module Kinds {
  import opened Prelude
  import opened Wire
  import opened Batches
  import opened Receiver
  import opened Delivery
  import opened PeerFiles
  import opened RelayInbound
  import opened Sockets
  import Gaps
  import Sender
  import Pumping
  import PumpEvents
  import Channel
  import EndToEnd

  // ---------- Relay to client ----------

  /** Entry and frame agree by kind. */
  predicate ClientSees(f: WireFrame, entry: Inbound) {
    && (entry.InData? <==> f.kind == Data) && (entry.InData? ==> entry.bytes == f.payload)
    && (entry.InEof? <==> f.kind == Eof)
    && (entry.InClose? <==> f.kind == Close || f.kind == Error)
  }

  lemma ClientTranslates(f: WireFrame)
    ensures WireToInbound(f).None? <==> f.kind == Hello || f.kind == Connect
    ensures WireToInbound(f).Some? ==> ClientSees(f, WireToInbound(f).value)
  {}

  /** Over every run of polls, entry i of the client's mailbox is the relay's frame i, by kind. */
  lemma MailboxByKind(sid: SessionId, peer: Peer, room: Option<nat>, polls: seq<Poll>, i: nat)
    requires Contiguous(ClientLink(sid), peer.batches) && PossibleRun(Fresh(room), ClientLink(sid), polls)
    requires forall k {:trigger polls[k]} :: 0 <= k < |polls| ==> Listed(ClientLink(sid), peer, polls[k].listing)
    requires i < |Run(Fresh(room), ClientLink(sid), polls).events|
    ensures i < |Stream(peer.batches)|
    ensures ClientSees(Stream(peer.batches)[i], Run(Fresh(room), ClientLink(sid), polls).events[i])
  {
    var link := ClientLink(sid);
    RunFromPeer(link, peer, room, polls);
    Gaps.RunBelow(Fresh(room), link, peer, polls, |peer.batches|);
    TruthAt(peer.batches, i);
    ClientTranslates(Stream(peer.batches)[i]);
  }

  ghost predicate NoCloseSent(peer: Peer) {
    forall f {:trigger f in Stream(peer.batches)} :: f in Stream(peer.batches) ==> f.kind != Close && f.kind != Error
  }

  /** The local side has not ended or failed, and the mailbox is open. */
  ghost predicate LocalGoesOn(events: seq<Sender.PumpEvent>) {
    forall k {:trigger events[k]} :: 0 <= k < |events| ==>
      !events[k].LocalEof? && !events[k].LocalError? && !events[k].MailboxClosed? && (events[k].FromRelay? ==> events[k].writeOk)
  }

  lemma {:induction false} HandledHas(events: seq<Sender.PumpEvent>, k: nat)
    requires k < |events| && events[k].FromRelay?
    ensures events[k].frame in Handled(events)
  {
    if k > 0 {
      HandledHas(events[1..], k - 1);
    }
  }

  /**
   A relay that has sent neither Close nor Error leaves the pump running until the
   local side ends, also after it half-closed: what the browser still sends is read.
   */
  lemma {:induction false} HalfCloseKeepsRunning(sid: SessionId, peer: Peer, room: Option<nat>, polls: seq<Poll>,
                               address: seq<byte>, opening: Sender.Opening, events: seq<Sender.PumpEvent>)
    requires Contiguous(ClientLink(sid), peer.batches) && PossibleRun(Fresh(room), ClientLink(sid), polls)
    requires forall k {:trigger polls[k]} :: 0 <= k < |polls| ==> Listed(ClientLink(sid), peer, polls[k].listing)
    requires Sender.ValidOpening(opening) && Sender.PossibleRun(Sender.StartPump(sid, address, opening), events)
    requires Handled(events) <= Run(Fresh(room), ClientLink(sid), polls).events
    requires NoCloseSent(peer) && LocalGoesOn(events)
    ensures Sender.Run(Sender.StartPump(sid, address, opening), events).exit == Sender.Running
  {
    PumpEvents.FramesByEvents(sid, address, opening, events);
    var mailbox := Run(Fresh(room), ClientLink(sid), polls).events;
    if events != [] && events[|events| - 1].FromRelay? {
      var frame := events[|events| - 1].frame;
      HandledHas(events, |events| - 1);
      var i :| 0 <= i < |Handled(events)| && Handled(events)[i] == frame;
      assert mailbox[i] == frame;
      MailboxByKind(sid, peer, room, polls, i);
      assert Stream(peer.batches)[i] in Stream(peer.batches);
    }
    GoesOnIsRunning(events);
  }

  lemma GoesOnIsRunning(events: seq<Sender.PumpEvent>)
    requires LocalGoesOn(events)
    requires events != [] && events[|events| - 1].FromRelay? ==> events[|events| - 1].frame != InClose
    ensures PumpEvents.ExitOf(events) == Sender.Running
  {
    if events != [] {
      var n := |events| - 1;
      assert forall k {:trigger events[..n][k]} :: 0 <= k < n ==> events[..n][k] == events[k];
    }
  }

  // ---------- Client to relay ----------

  predicate RelaySees(f: WireFrame, entry: RelayEvent) {
    && (entry.Dial? <==> f.kind == Connect)
    && (entry.Write? <==> f.kind == Data) && (entry.Write? ==> entry.bytes == f.payload)
    && (entry.HalfClose? <==> f.kind == Eof)
    && (entry.Shut? <==> f.kind == Close || f.kind == Error)
  }

  lemma RelayTranslates(f: WireFrame)
    ensures f.kind == Hello ==> FrameToInbound(f).None?
    ensures f.kind != Hello && f.kind != Connect ==> FrameToInbound(f).Some?
    ensures FrameToInbound(f).Some? ==> RelaySees(f, FrameToInbound(f).value)
  {}

  /** Over every run of the system, event i of the relay's session is the client's frame i, by kind. */
  lemma SessionByKind(sid: SessionId, address: seq<byte>, opening: Sender.Opening,
                      room: Option<nat>, acts: seq<Channel.Act>, i: nat)
    requires Sender.ValidOpening(opening)
    requires Channel.PossibleRun(RelayLink(sid), Channel.Begin(sid, address, opening, room), acts)
    requires i < |Channel.Run(RelayLink(sid), Channel.Begin(sid, address, opening, room), acts).rx.events|
    ensures var net := Channel.Run(RelayLink(sid), Channel.Begin(sid, address, opening, room), acts);
            i < |Pumping.AllFrames(net.tx)| && RelaySees(Pumping.AllFrames(net.tx)[i], net.rx.events[i])
  {
    Channel.ReceivedIsPrefixOfSent(RelayLink(sid), address, opening, room, acts);
    var net := Channel.Run(RelayLink(sid), Channel.Begin(sid, address, opening, room), acts);
    assert RelayLink(sid).convert(Pumping.AllFrames(net.tx)[i]) == Some(net.rx.events[i]);
    RelayTranslates(Pumping.AllFrames(net.tx)[i]);
  }

  /**
   The server side is half-closed for the browser: once everything uploaded was
   delivered and nothing waits, the relay has been told to half-close if and only if
   the browser ended its side, and to shut down if and only if the client closed.
   */
  lemma HalfCloseArrives(sid: SessionId, address: seq<byte>, opening: Sender.Opening,
                         room: Option<nat>, acts: seq<Channel.Act>)
    requires Sender.ValidOpening(opening)
    requires Channel.PossibleRun(RelayLink(sid), Channel.Begin(sid, address, opening, room), acts)
    requires var net := Channel.Run(RelayLink(sid), Channel.Begin(sid, address, opening, room), acts);
             EndToEnd.AllDelivered(RelayLink(sid), net) && net.tx.pending == []
    ensures var net := Channel.Run(RelayLink(sid), Channel.Begin(sid, address, opening, room), acts);
            var events := Channel.SenderEvents(acts);
            && (HalfClose in net.rx.events <==> PumpEvents.LocalEnded(events))
            && (Shut in net.rx.events <==> PumpEvents.Breaks(events) || PumpEvents.Completes(events))
  {
    var start := Channel.Begin<RelayEvent>(sid, address, opening, room);
    var net := Channel.Run(RelayLink(sid), start, acts);
    Channel.SenderProjection(RelayLink(sid), start, acts);
    PumpEvents.KindsByEvents(sid, address, opening, Channel.SenderEvents(acts));
    Pumping.SenderConserves(sid, address, opening, Channel.SenderEvents(acts));
    Channel.ReceivedIsPrefixOfSent(RelayLink(sid), address, opening, room, acts);
    DeliveredByKind(sid, net);
  }

  lemma DeliveredByKind(sid: SessionId, net: Channel.Net<RelayEvent>)
    requires Channel.PrefixOfSent(RelayLink(sid), net) && EndToEnd.AllDelivered(RelayLink(sid), net) && net.tx.pending == []
    requires Pumping.InLanguage(Pumping.AllFrames(net.tx))
    ensures HalfClose in net.rx.events <==> PumpEvents.Sends(net.tx, Eof)
    ensures Shut in net.rx.events <==> PumpEvents.Sends(net.tx, Close)
  {
    var frames := Pumping.AllFrames(net.tx);
    assert frames == Stream(Pumping.Uploads(net.tx));
    forall i | 0 <= i < |net.rx.events|
      ensures RelaySees(frames[i], net.rx.events[i])
    {
      assert RelayLink(sid).convert(frames[i]) == Some(net.rx.events[i]);
      RelayTranslates(frames[i]);
    }
    EventsByKind(frames, net.rx.events);
  }

  lemma EventsByKind(frames: seq<WireFrame>, events: seq<RelayEvent>)
    requires |frames| == |events| && forall i {:trigger events[i]} :: 0 <= i < |events| ==> RelaySees(frames[i], events[i])
    requires forall i {:trigger frames[i]} :: 0 <= i < |frames| ==> Pumping.Rank(frames[i].kind) <= 3
    ensures HalfClose in events <==> exists i {:trigger frames[i]} :: 0 <= i < |frames| && frames[i].kind == Eof
    ensures Shut in events <==> exists i {:trigger frames[i]} :: 0 <= i < |frames| && frames[i].kind == Close
  {
    forall i | 0 <= i < |frames|
      ensures events[i] == HalfClose <==> frames[i].kind == Eof
      ensures events[i] == Shut <==> frames[i].kind == Close
    {
      assert RelaySees(frames[i], events[i]);
    }
  }
}
