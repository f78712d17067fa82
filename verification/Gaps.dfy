/**
 A receiver never passes a batch it cannot use: one that is not in the folder, is
 over a cap, or was never sent.
 */
module Gaps {
  import opened Prelude
  import opened Wire
  import opened Batches
  import opened Receiver
  import opened Delivery
  import opened PeerFiles

  /** Delivering any other batch leaves the window at or below batch k. */
  lemma DeliverBelow<E>(rx: Rx<E>, p: Prepared, link: Link<E>, peer: Peer, k: nat, m: nat)
    requires Contiguous(link, peer.batches) && k <= |peer.batches| && rx.accepted <= Start(peer.batches, k)
    requires HoldsBatch(link, peer, p, m) && m != k
    ensures Deliver(rx, p, link.convert).0.accepted <= Start(peer.batches, k)
  {
    var frames := p.batch.frames;
    var n := RunLength(frames, link.sid, rx.accepted, rx.room, link.convert);
    CutNoneEmpty(link, peer.batches);
    assert ContiguousAt(link, peer.batches[m], Start(peer.batches, m));
    if m < k {
      StartRises(peer.batches, m, k);
      if n > 0 {
        assert frames[n - 1].seqno == rx.accepted + (n - 1);
      }
    } else {
      StartRises(peer.batches, k, m);
      assert frames[0].seqno == Start(peer.batches, m);
    }
  }

  lemma {:induction false} DeliverAllBelow<E>(rx: Rx<E>, ps: seq<Prepared>, link: Link<E>, peer: Peer, k: nat)
    requires Contiguous(link, peer.batches) && k <= |peer.batches| && rx.accepted <= Start(peer.batches, k)
    requires AllPeer(link, peer, ps) && !Holds(link, peer, ps, k)
    ensures DeliverAll(rx, ps, link.convert).accepted <= Start(peer.batches, k)
    decreases |ps|
  {
    if ps != [] {
      HeadIsPeer(link, peer, ps, k);
      DeliverBelow(rx, ps[0], link, peer, k, peer.files[ps[0].file.id]);
      DeliverAllBelow(Deliver(rx, ps[0], link.convert).0, ps[1..], link, peer, k);
    }
  }

  lemma HeadIsPeer<E>(link: Link<E>, peer: Peer, ps: seq<Prepared>, k: nat)
    requires AllPeer(link, peer, ps) && ps != [] && !Holds(link, peer, ps, k)
    ensures var id := ps[0].file.id;
            id in peer.files && peer.files[id] != k && HoldsBatch(link, peer, ps[0], peer.files[id])
    ensures AllPeer(link, peer, ps[1..]) && !Holds(link, peer, ps[1..], k)
  {
    assert ps[0] in ps;
    assert forall q :: q in ps[1..] ==> q in ps;
  }

  /** Batch k cannot be used: it does not exist, no file holds it, or it is not readable. */
  ghost predicate Missing(peer: Peer, k: nat) {
    k >= |peer.batches| || k !in peer.files.Values || !Readable(peer.batches[k])
  }

  lemma MissingNotHeld<E>(rx: Rx<E>, link: Link<E>, peer: Peer, poll: Poll, k: nat)
    requires Contiguous(link, peer.batches) && Possible(rx, link, poll) && Listed(link, peer, poll.listing)
    requires Missing(peer, k)
    ensures !Holds(link, peer, SortBy(poll.arrivals, SeqnoOfPrepared), k)
  {
    forall p | p in SortBy(poll.arrivals, SeqnoOfPrepared)
      ensures !HoldsBatch(link, peer, p, k)
    {
      var s := ArrivalSource(rx, link, poll, p);
      PeerFilePrepares(link, peer, s);
      assert peer.files[s.file.id] in peer.files.Values;
    }
  }

  /** A poll never passes such a batch, whatever the translation. */
  lemma PollBelow<E>(rx: Rx<E>, link: Link<E>, peer: Peer, poll: Poll, k: nat)
    requires Contiguous(link, peer.batches) && k <= |peer.batches| && rx.accepted <= Start(peer.batches, k)
    requires Possible(rx, link, poll) && Listed(link, peer, poll.listing) && Missing(peer, k)
    ensures PollStep(rx, link, poll).accepted <= Start(peer.batches, k)
  {
    if GroupOf(link, poll.listing) != [] && poll.registered && rx.accepted != U64_LIMIT {
      PeerArrivals(rx, link, peer, poll);
      MissingNotHeld(rx, link, peer, poll, k);
      DeliverAllBelow(Swept(rx, link, poll), SortBy(poll.arrivals, SeqnoOfPrepared), link, peer, k);
    }
  }

  /** Nor does any run of polls. */
  lemma {:induction false} RunBelow<E>(rx: Rx<E>, link: Link<E>, peer: Peer, polls: seq<Poll>, k: nat)
    requires Contiguous(link, peer.batches) && k <= |peer.batches| && rx.accepted <= Start(peer.batches, k)
    requires PossibleRun(rx, link, polls) && Missing(peer, k)
    requires forall i {:trigger polls[i]} :: 0 <= i < |polls| ==> Listed(link, peer, polls[i].listing)
    ensures Run(rx, link, polls).accepted <= Start(peer.batches, k)
    decreases |polls|
  {
    if polls != [] {
      PollBelow(rx, link, peer, polls[0], k);
      forall i | 0 <= i < |polls[1..]|
        ensures Listed(link, peer, polls[1..][i].listing)
      {
        assert polls[1..][i] == polls[i + 1];
      }
      RunBelow(PollStep(rx, link, polls[0]), link, peer, polls[1..], k);
    }
  }
}
