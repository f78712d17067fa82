/**
 From socket to socket: what the relay writes to the server is a prefix of what the
 client read, and what the pump writes to the browser is a prefix of what the relay sent.
 */
module Sockets {
  import opened Prelude
  import opened Wire
  import opened Batches
  import opened Receiver
  import opened Delivery
  import opened PeerFiles
  import opened RelayInbound
  import Gaps
  import Sender
  import Pumping
  import Channel

  // ---------- Client to server ----------

  /** What the relay's session driver writes to the server for these events. */
  ghost function ServerBytes(events: seq<RelayEvent>): seq<byte> {
    if events == [] then []
    else
      var last := events[|events| - 1];
      ServerBytes(events[..|events| - 1]) + if last.Write? then last.bytes else []
  }

  lemma {:induction false} ServerBytesAre(events: seq<RelayEvent>, sent: seq<WireFrame>)
    requires |events| == |sent|
    requires forall i {:trigger events[i]} :: 0 <= i < |events| ==> FrameToInbound(sent[i]) == Some(events[i])
    ensures ServerBytes(events) == Sender.DataBytes(sent)
  {
    if events != [] {
      var n := |events| - 1;
      ServerBytesAre(events[..n], sent[..n]);
      assert FrameToInbound(sent[n]) == Some(events[n]);
    }
  }

  lemma ServerBytesOfPrefix(sid: SessionId, net: Channel.Net<RelayEvent>)
    requires Channel.PrefixOfSent(RelayLink(sid), net)
    ensures ServerBytes(net.rx.events) == Sender.DataBytes(Pumping.AllFrames(net.tx)[..net.rx.accepted])
  {
    ServerBytesAre(net.rx.events, Pumping.AllFrames(net.tx)[..net.rx.accepted]);
  }

  /** At every point of every run, the server has been given a prefix of the bytes the client read. */
  lemma ServerGetsClientPrefix(sid: SessionId, address: seq<byte>, opening: Sender.Opening,
                               room: Option<nat>, acts: seq<Channel.Act>)
    requires Sender.ValidOpening(opening)
    requires Channel.PossibleRun(RelayLink(sid), Channel.Begin(sid, address, opening, room), acts)
    ensures ServerBytes(Channel.Run(RelayLink(sid), Channel.Begin(sid, address, opening, room), acts).rx.events)
         <= Pumping.OpeningBytes(opening) + Pumping.ReadBytes(Channel.SenderEvents(acts))
  {
    var link := RelayLink(sid);
    Channel.ReceivedIsPrefixOfSent(link, address, opening, room, acts);
    Channel.BytesArriveInOrder(link, address, opening, room, acts);
    ServerBytesOfPrefix(sid, Channel.Run(link, Channel.Begin(sid, address, opening, room), acts));
  }

  // ---------- Server to browser ----------

  function BytesOf(frame: Inbound): seq<byte> { if frame.InData? then frame.bytes else [] }

  /** The payload bytes of a mailbox, in order. */
  ghost function InboundBytes(frames: seq<Inbound>): seq<byte> {
    if frames == [] then [] else InboundBytes(frames[..|frames| - 1]) + BytesOf(frames[|frames| - 1])
  }

  lemma {:induction false} InboundCons(frame: Inbound, rest: seq<Inbound>)
    ensures InboundBytes([frame] + rest) == BytesOf(frame) + InboundBytes(rest)
  {
    var all := [frame] + rest;
    if rest == [] {
      assert all[..0] == [];
    } else {
      var n := |rest| - 1;
      assert all[..|all| - 1] == [frame] + rest[..n];
      InboundCons(frame, rest[..n]);
    }
  }

  lemma {:induction false} InboundPrefix(frames: seq<Inbound>, n: nat)
    requires n <= |frames|
    ensures InboundBytes(frames[..n]) <= InboundBytes(frames)
  {
    if n < |frames| {
      var m := |frames| - 1;
      InboundPrefix(frames[..m], n);
      assert frames[..m][..n] == frames[..n];
    } else {
      assert frames[..n] == frames;
    }
  }

  lemma {:induction false} InboundBytesAre(events: seq<Inbound>, sent: seq<WireFrame>)
    requires |events| == |sent|
    requires forall i {:trigger events[i]} :: 0 <= i < |events| ==> WireToInbound(sent[i]) == Some(events[i])
    ensures InboundBytes(events) == Sender.DataBytes(sent)
  {
    if events != [] {
      var n := |events| - 1;
      InboundBytesAre(events[..n], sent[..n]);
      assert WireToInbound(sent[n]) == Some(events[n]);
    }
  }

  /** The mailbox frames a pump run handled, in order. */
  ghost function Handled(events: seq<Sender.PumpEvent>): seq<Inbound> {
    if events == [] then []
    else if events[0].FromRelay? then [events[0].frame] + Handled(events[1..])
    else Handled(events[1..])
  }

  lemma HandledBytes(events: seq<Sender.PumpEvent>)
    requires events != []
    ensures InboundBytes(Handled(events))
         == (if events[0].FromRelay? then BytesOf(events[0].frame) else []) + InboundBytes(Handled(events[1..]))
  {
    if events[0].FromRelay? {
      InboundCons(events[0].frame, Handled(events[1..]));
    }
  }

  /** What one turn writes, if anything, is the payload of the frame it handled. */
  lemma TurnWrites(tx: Sender.Tx, ev: Sender.PumpEvent)
    requires Sender.Enabled(tx, ev)
    ensures !tx.localWritable ==> Sender.Step(tx, ev).written == tx.written && !Sender.Step(tx, ev).localWritable
    ensures Sender.Step(tx, ev).exit == Sender.Running && Sender.Step(tx, ev).localWritable ==>
      Sender.Step(tx, ev).written == tx.written + if ev.FromRelay? then BytesOf(ev.frame) else []
    ensures !(Sender.Step(tx, ev).exit == Sender.Running && Sender.Step(tx, ev).localWritable) ==>
      Sender.Step(tx, ev).written == tx.written
  {}

  lemma {:induction false} NothingMoreWritten(tx: Sender.Tx, events: seq<Sender.PumpEvent>)
    requires Sender.PossibleRun(tx, events) && (tx.exit != Sender.Running || !tx.localWritable)
    ensures Sender.Run(tx, events).written == tx.written
    decreases |events|
  {
    if events != [] {
      TurnWrites(tx, events[0]);
      NothingMoreWritten(Sender.Step(tx, events[0]), events[1..]);
    }
  }

  /** Whatever writes fail, the local socket has been given a prefix of the payload handled. */
  lemma {:induction false} WrittenWithin(tx: Sender.Tx, events: seq<Sender.PumpEvent>)
    requires Sender.PossibleRun(tx, events)
    ensures Sender.Run(tx, events).written <= tx.written + InboundBytes(Handled(events))
    decreases |events|
  {
    if events != [] {
      var next := Sender.Step(tx, events[0]);
      TurnWrites(tx, events[0]);
      HandledBytes(events);
      if next.exit == Sender.Running && next.localWritable {
        WrittenWithin(next, events[1..]);
        PrefixStep(Sender.Run(next, events[1..]).written, tx.written,
                   if events[0].FromRelay? then BytesOf(events[0].frame) else [], InboundBytes(Handled(events[1..])));
      } else {
        NothingMoreWritten(next, events[1..]);
      }
    }
  }

  lemma PrefixStep(w: seq<byte>, a: seq<byte>, b: seq<byte>, c: seq<byte>)
    requires w <= (a + b) + c
    ensures w <= a + (b + c)
  {
    assert (a + b) + c == a + (b + c);
  }

  function ClientLink(sid: SessionId): Link<Inbound> { Link(RelayToClient, sid, WireToInbound) }

  lemma {:induction false} MailboxIsPeerPrefix(sid: SessionId, peer: Peer, room: Option<nat>, polls: seq<Poll>)
    requires Contiguous(ClientLink(sid), peer.batches) && PossibleRun(Fresh(room), ClientLink(sid), polls)
    requires forall k {:trigger polls[k]} :: 0 <= k < |polls| ==> Listed(ClientLink(sid), peer, polls[k].listing)
    ensures InboundBytes(Run(Fresh(room), ClientLink(sid), polls).events) <= Sender.DataBytes(Stream(peer.batches))
  {
    var link := ClientLink(sid);
    var rx, sent := Run(Fresh(room), link, polls), Stream(peer.batches);
    RunFromPeer(link, peer, room, polls);
    Gaps.RunBelow(Fresh(room), link, peer, polls, |peer.batches|);
    forall i | 0 <= i < |rx.events|
      ensures WireToInbound(sent[..rx.accepted][i]) == Some(rx.events[i])
    {
      TruthAt(peer.batches, i);
    }
    InboundBytesAre(rx.events, sent[..rx.accepted]);
    Channel.DataPrefix(sent, rx.accepted);
  }

  /**
   A pump fed in order from the mailbox that a run of polls filled: what it has
   written to the browser is a prefix of the Data bytes the relay sent, whatever the
   polls showed, which writes failed and what the browser did meanwhile.
   */
  lemma BrowserGetsRelayPrefix(sid: SessionId, peer: Peer, room: Option<nat>, polls: seq<Poll>,
                               address: seq<byte>, opening: Sender.Opening, events: seq<Sender.PumpEvent>)
    requires Contiguous(ClientLink(sid), peer.batches) && PossibleRun(Fresh(room), ClientLink(sid), polls)
    requires forall k {:trigger polls[k]} :: 0 <= k < |polls| ==> Listed(ClientLink(sid), peer, polls[k].listing)
    requires Sender.ValidOpening(opening) && Sender.PossibleRun(Sender.StartPump(sid, address, opening), events)
    requires Handled(events) <= Run(Fresh(room), ClientLink(sid), polls).events
    ensures Sender.Run(Sender.StartPump(sid, address, opening), events).written <= Sender.DataBytes(Stream(peer.batches))
  {
    var start, mailbox := Sender.StartPump(sid, address, opening), Run(Fresh(room), ClientLink(sid), polls).events;
    WrittenWithin(start, events);
    assert [] + InboundBytes(Handled(events)) == InboundBytes(Handled(events));
    InboundPrefix(mailbox, |Handled(events)|);
    assert mailbox[..|Handled(events)|] == Handled(events);
    MailboxIsPeerPrefix(sid, peer, room, polls);
  }
}
