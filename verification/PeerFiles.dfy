/**
 The receiver facing a well-behaved peer: one whose files cut its frame stream
 into contiguous batches, each file named by its first seq.
 */
module PeerFiles {
  import opened Prelude
  import opened Wire
  import opened Batches
  import opened Receiver
  import opened Delivery

  /** Everything the peer ever uploads; `files` says which batch a Drive file id holds. */
  datatype Peer = Peer(batches: seq<Batch>, files: map<string, nat>)

  ghost predicate ContiguousAt<E>(link: Link<E>, batch: Batch, start: nat) {
    && batch.frames != []
    && forall k {:trigger batch.frames[k]} :: 0 <= k < |batch.frames| ==>
         batch.frames[k].version == WIRE_VERSION && batch.frames[k].sid == link.sid && batch.frames[k].seqno == start + k
  }

  ghost predicate Legal<E>(link: Link<E>, batch: Batch) {
    forall k {:trigger batch.frames[k]} :: 0 <= k < |batch.frames| ==> link.convert(batch.frames[k]).Some?
  }

  /** The batches cut one frame stream, numbered from 0. */
  ghost predicate Contiguous<E>(link: Link<E>, batches: seq<Batch>) {
    forall i {:trigger batches[i]} :: 0 <= i < |batches| ==> ContiguousAt(link, batches[i], Start(batches, i))
  }

  ghost predicate AllLegal<E>(link: Link<E>, batches: seq<Batch>) {
    forall i {:trigger batches[i]} :: 0 <= i < |batches| ==> Legal(link, batches[i])
  }

  ghost predicate AllReadable(batches: seq<Batch>) {
    forall i {:trigger batches[i]} :: 0 <= i < |batches| ==> Readable(batches[i])
  }

  /** The hypothesis on a peer: contiguous batches of legal kinds within the caps. */
  ghost predicate WellCut<E>(link: Link<E>, batches: seq<Batch>) {
    Contiguous(link, batches) && AllLegal(link, batches) && AllReadable(batches)
  }

  /**
   A listed file holds one of the peer's batches, under its true size if any is
   shown; fetching it fails, is refused for that size, or opens to the encoded batch.
   */
  ghost predicate FromPeer<E>(link: Link<E>, peer: Peer, s: Shown) {
    && s.file.id in peer.files && peer.files[s.file.id] < |peer.batches|
    && var batch := peer.batches[peer.files[s.file.id]];
    && s.file.name.seqno == Start(peer.batches, peer.files[s.file.id])
    && (s.file.size.Some? ==> s.file.size.value == BodySize(s.file.name, EncodeBatch(batch)))
    && (s.fetch == TooLarge ==> BodySize(s.file.name, EncodeBatch(batch)) > SizeCap(s.file.name))
    && (s.fetch.Opened? ==> s.fetch.plaintext == EncodeBatch(batch))
  }

  ghost predicate Listed<E>(link: Link<E>, peer: Peer, listing: seq<Shown>) {
    forall s {:trigger s in listing} :: s in listing && ForLink(link, s) ==> FromPeer(link, peer, s)
  }

  /** A prepared batch that is the peer's batch m. */
  ghost predicate HoldsBatch<E>(link: Link<E>, peer: Peer, p: Prepared, m: nat) {
    && m < |peer.batches| && p.batch == peer.batches[m]
    && p.file.id in peer.files && peer.files[p.file.id] == m
    && p.file.name.sid == link.sid && p.file.name.seqno == Start(peer.batches, m)
  }

  ghost predicate AllPeer<E>(link: Link<E>, peer: Peer, ps: seq<Prepared>) {
    forall p {:trigger p in ps} :: p in ps ==>
      p.file.id in peer.files && HoldsBatch(link, peer, p, peer.files[p.file.id])
  }

  // ---------- What becomes of a peer's file ----------

  /** The file of a readable batch is used if it opens; one of any other batch never is. */
  lemma PeerFilePrepares<E>(link: Link<E>, peer: Peer, s: Shown)
    requires Contiguous(link, peer.batches) && FromPeer(link, peer, s)
    ensures var batch := peer.batches[peer.files[s.file.id]];
            && (Readable(batch) ==> !Prepare(s).Discarded?)
            && (Readable(batch) && s.fetch.Opened? ==> Prepare(s) == Ready(Prepared(s.file, batch)))
            && (Prepare(s).Ready? ==> Readable(batch) && s.fetch.Opened?)
  {
    var m := peer.files[s.file.id];
    var batch := peer.batches[m];
    assert ContiguousAt(link, batch, Start(peer.batches, m));
    if SealedSize(batch) <= MAX_SEALED_FRAME_BODY_BYTES {
      FitsDecodes(batch);
    }
  }

  // ---------- Batch boundaries ----------

  lemma CutNoneEmpty<E>(link: Link<E>, batches: seq<Batch>)
    requires Contiguous(link, batches)
    ensures NoneEmpty(batches)
  {
    forall i | 0 <= i < |batches|
      ensures batches[i].frames != []
    {
      assert ContiguousAt(link, batches[i], Start(batches, i));
    }
  }

  lemma CutOrder<E>(link: Link<E>, batches: seq<Batch>, i: nat, j: nat)
    requires Contiguous(link, batches)
    requires i <= |batches| && j <= |batches|
    ensures Start(batches, i) < Start(batches, j) <==> i < j
  {
    CutNoneEmpty(link, batches);
    StartOrder(batches, i, j);
  }

  // ---------- One batch ----------

  lemma RunLengthAtBoundary<E>(link: Link<E>, batch: Batch, start: nat, room: Option<nat>)
    requires ContiguousAt(link, batch, start) && Legal(link, batch)
    ensures var n := RunLength(batch.frames, link.sid, start, room, link.convert);
            n == |batch.frames| || room == Some(n)
  {
    var n := RunLength(batch.frames, link.sid, start, room, link.convert);
    assert n < |batch.frames| ==> batch.frames[n].sid == link.sid;
  }

  /** On a batch boundary the receiver takes the next batch whole, drops older ones and leaves later ones. */
  lemma DeliverPeerBatch<E>(rx: Rx<E>, p: Prepared, link: Link<E>, peer: Peer, i: nat, m: nat)
    requires WellCut(link, peer.batches) && i <= |peer.batches| && rx.accepted == Start(peer.batches, i)
    requires HoldsBatch(link, peer, p, m)
    ensures var (rx', outcome) := Deliver(rx, p, link.convert);
            && (m < i ==> outcome == Duplicate && rx' == rx.(deleted := rx.deleted + {p.file.id}))
            && (m > i ==> outcome == Blocked && rx' == rx)
            && (m == i ==> rx'.accepted <= Start(peer.batches, i + 1)
                           && (rx'.accepted == Start(peer.batches, i + 1) || rx'.room == Some(0)))
            && (m == i && rx'.room != Some(0) ==>
                  outcome == Consumed && rx'.accepted == Start(peer.batches, i + 1)
                  && rx'.deleted == rx.deleted + {p.file.id})
  {
    CutOrder(link, peer.batches, m, i);
    CutOrder(link, peer.batches, i, m);
    assert p.batch.frames[0].seqno == Start(peer.batches, m);
    if m == i {
      RunLengthAtBoundary(link, p.batch, rx.accepted, rx.room);
    }
  }

  lemma {:induction false} ClosedStaysClosed<E>(rx: Rx<E>, ps: seq<Prepared>, convert: WireFrame -> Option<E>)
    requires rx.room == Some(0)
    ensures DeliverAll(rx, ps, convert).room == Some(0)
    decreases |ps|
  {
    if ps != [] {
      ClosedStaysClosed(Deliver(rx, ps[0], convert).0, ps[1..], convert);
    }
  }

  // ---------- A sorted list of batches ----------

  ghost predicate Holds<E>(link: Link<E>, peer: Peer, ps: seq<Prepared>, m: nat) {
    exists p :: p in ps && HoldsBatch(link, peer, p, m)
  }

  /** What is deleted on the way is below batch j. */
  ghost predicate DeletesBelow<E>(rx: Rx<E>, rx': Rx<E>, peer: Peer, j: nat) {
    forall id {:trigger id in rx'.deleted} :: id in rx'.deleted ==>
      id in rx.deleted || (id in peer.files && peer.files[id] < j)
  }

  lemma DeletesOneMore<E>(rx: Rx<E>, mid: Rx<E>, rx': Rx<E>, peer: Peer, j: nat, id: string)
    requires mid.deleted == rx.deleted + {id} && id in peer.files && peer.files[id] < j
    requires DeletesBelow(mid, rx', peer, j)
    ensures DeletesBelow(rx, rx', peer, j)
  {}

  /** The commit phase stops at the first batch, from i on, that it was not given. */
  lemma {:induction false} DeliverAllPeer<E>(rx: Rx<E>, ps: seq<Prepared>, link: Link<E>, peer: Peer, i: nat)
    returns (j: nat)
    requires WellCut(link, peer.batches) && i <= |peer.batches| && rx.accepted == Start(peer.batches, i)
    requires AllPeer(link, peer, ps) && SortedBy(ps, SeqnoOfPrepared)
    requires DeliverAll(rx, ps, link.convert).room != Some(0)
    ensures i <= j <= |peer.batches|
    ensures DeliverAll(rx, ps, link.convert).accepted == Start(peer.batches, j)
    ensures forall m {:trigger Holds(link, peer, ps, m)} :: i <= m < j ==> Holds(link, peer, ps, m)
    ensures !Holds(link, peer, ps, j)
    ensures DeletesBelow(rx, DeliverAll(rx, ps, link.convert), peer, j)
    decreases |ps|
  {
    if ps == [] {
      return i;
    }
    var m := HeadBatch(link, peer, ps);
    var rx' := HeadStep(rx, ps, link, peer, i, m);
    if m > i {
      LaterOnly(ps, link, peer, i, m);
      return i;
    }
    j := DeliverAllPeer(rx', ps[1..], link, peer, if m == i then i + 1 else i);
    HoldsCons(ps, link, peer, m, j);
    DeletesOneMore(rx, rx', DeliverAll(rx', ps[1..], link.convert), peer, j, ps[0].file.id);
    forall k | i <= k < j
      ensures Holds(link, peer, ps, k)
    {
      assert k == m || Holds(link, peer, ps[1..], k);
    }
  }

  lemma HeadBatch<E>(link: Link<E>, peer: Peer, ps: seq<Prepared>) returns (m: nat)
    requires AllPeer(link, peer, ps) && SortedBy(ps, SeqnoOfPrepared) && ps != []
    ensures ps[0].file.id in peer.files && m == peer.files[ps[0].file.id] && HoldsBatch(link, peer, ps[0], m)
    ensures AllPeer(link, peer, ps[1..]) && SortedBy(ps[1..], SeqnoOfPrepared)
  {
    assert ps[0] in ps;
    assert forall q :: q in ps[1..] ==> q in ps;
    m := peer.files[ps[0].file.id];
  }

  /** The head of the list, while the mailbox stays open: blocked, dropped or taken whole. */
  lemma HeadStep<E>(rx: Rx<E>, ps: seq<Prepared>, link: Link<E>, peer: Peer, i: nat, m: nat) returns (rx': Rx<E>)
    requires WellCut(link, peer.batches) && i <= |peer.batches| && rx.accepted == Start(peer.batches, i)
    requires ps != [] && HoldsBatch(link, peer, ps[0], m)
    requires DeliverAll(rx, ps, link.convert).room != Some(0)
    ensures m > i ==> DeliverAll(rx, ps, link.convert) == rx
    ensures m <= i ==>
      && DeliverAll(rx, ps, link.convert) == DeliverAll(rx', ps[1..], link.convert)
      && rx'.accepted == Start(peer.batches, if m == i then i + 1 else i)
      && rx'.deleted == rx.deleted + {ps[0].file.id}
  {
    var step := Deliver(rx, ps[0], link.convert);
    rx' := step.0;
    DeliverPeerBatch(rx, ps[0], link, peer, i, m);
    if rx'.room == Some(0) {
      ClosedStaysClosed(rx', ps[1..], link.convert);
    }
  }

  lemma LaterOnly<E>(ps: seq<Prepared>, link: Link<E>, peer: Peer, i: nat, m: nat)
    requires Contiguous(link, peer.batches) && SortedBy(ps, SeqnoOfPrepared)
    requires ps != [] && HoldsBatch(link, peer, ps[0], m) && i < m
    ensures !Holds(link, peer, ps, i)
  {
    CutOrder(link, peer.batches, i, m);
    forall p | p in ps
      ensures !HoldsBatch(link, peer, p, i)
    {
      var k :| 0 <= k < |ps| && ps[k] == p;
      assert SeqnoOfPrepared(ps[0]) <= SeqnoOfPrepared(ps[k]);
    }
  }

  lemma HoldsCons<E>(ps: seq<Prepared>, link: Link<E>, peer: Peer, m: nat, j: nat)
    requires ps != [] && HoldsBatch(link, peer, ps[0], m) && m < j
    ensures Holds(link, peer, ps, m)
    ensures forall k {:trigger Holds(link, peer, ps[1..], k)} ::
      Holds(link, peer, ps[1..], k) ==> Holds(link, peer, ps, k)
    ensures !Holds(link, peer, ps[1..], j) ==> !Holds(link, peer, ps, j)
  {
    assert ps[0] in ps;
    assert forall p :: p in ps <==> p == ps[0] || p in ps[1..];
  }

  // ---------- One poll ----------

  lemma {:induction false} NoDiscards<E>(link: Link<E>, peer: Peer, xs: seq<Shown>)
    requires Contiguous(link, peer.batches) && AllReadable(peer.batches)
    requires forall s {:trigger s in xs} :: s in xs ==> FromPeer(link, peer, s)
    ensures DiscardIds(xs) == {}
  {
    if xs != [] {
      assert xs[0] in xs && forall s :: s in xs[1..] ==> s in xs;
      PeerFilePrepares(link, peer, xs[0]);
      NoDiscards(link, peer, xs[1..]);
    }
  }

  lemma PeerArrivals<E>(rx: Rx<E>, link: Link<E>, peer: Peer, poll: Poll)
    requires Possible(rx, link, poll) && Listed(link, peer, poll.listing) && Contiguous(link, peer.batches)
    ensures AllPeer(link, peer, SortBy(poll.arrivals, SeqnoOfPrepared))
    ensures SortedBy(SortBy(poll.arrivals, SeqnoOfPrepared), SeqnoOfPrepared)
  {
    var ps := SortBy(poll.arrivals, SeqnoOfPrepared);
    SortBySorted(poll.arrivals, SeqnoOfPrepared);
    forall p | p in ps
      ensures p.file.id in peer.files && HoldsBatch(link, peer, p, peer.files[p.file.id])
    {
      var s := ArrivalSource(rx, link, poll, p);
      PeerFilePrepares(link, peer, s);
    }
  }

  lemma SweptIsOld<E>(rx: Rx<E>, link: Link<E>, peer: Peer, poll: Poll, i: nat)
    requires WellCut(link, peer.batches) && i <= |peer.batches| && rx.accepted == Start(peer.batches, i)
    requires Listed(link, peer, poll.listing)
    ensures forall id :: id in Swept(rx, link, poll).deleted ==>
      id in rx.deleted || (id in peer.files && peer.files[id] < i)
  {
    var group := GroupOf(link, poll.listing);
    var plan := Scan(group, link.direction, rx.accepted, false);
    GroupMembers(link, poll.listing);
    ScanMembers(group, link.direction, rx.accepted, false);
    NoDiscards(link, peer, plan.fetch);
    forall id | id in plan.stale
      ensures id in peer.files && peer.files[id] < i
    {
      var s :| s in group && s.file.id == id && s.file.name.seqno < rx.accepted;
      assert s in poll.listing && FromPeer(link, peer, s);
      CutOrder(link, peer.batches, peer.files[id], i);
    }
  }

  /** Everything deleted so far lies below batch i, which is where the window stands. */
  ghost predicate Settled<E>(rx: Rx<E>, peer: Peer, i: nat) {
    && i <= |peer.batches| && rx.accepted == Start(peer.batches, i)
    && forall id {:trigger id in rx.deleted} :: id in rx.deleted ==> id in peer.files && peer.files[id] < i
  }

  lemma ClosedPoll<E>(rx: Rx<E>, link: Link<E>, poll: Poll)
    requires rx.room == Some(0)
    ensures PollStep(rx, link, poll).room == Some(0)
  {
    ClosedStaysClosed(Swept(rx, link, poll), SortBy(poll.arrivals, SeqnoOfPrepared), link.convert);
  }

  /** A poll on an exhausted counter deletes only what was delivered. */
  lemma ExhaustedPoll<E>(rx: Rx<E>, link: Link<E>, peer: Peer, poll: Poll, i: nat)
    requires Contiguous(link, peer.batches) && Listed(link, peer, poll.listing)
    requires Settled(rx, peer, i) && rx.accepted == U64_LIMIT
    ensures Settled(PollStep(rx, link, poll), peer, i)
  {
    var group := GroupOf(link, poll.listing);
    GroupMembers(link, poll.listing);
    forall s | s in group
      ensures s.file.id in peer.files && peer.files[s.file.id] < i
    {
      assert s in poll.listing && FromPeer(link, peer, s);
      CutOrder(link, peer.batches, peer.files[s.file.id], i);
    }
  }

  lemma PollSettled<E>(rx: Rx<E>, link: Link<E>, peer: Peer, poll: Poll, i: nat) returns (j: nat)
    requires WellCut(link, peer.batches) && Listed(link, peer, poll.listing)
    requires Possible(rx, link, poll) && Settled(rx, peer, i)
    requires PollStep(rx, link, poll).room != Some(0)
    ensures Settled(PollStep(rx, link, poll), peer, j)
  {
    if rx.room == Some(0) {
      ClosedPoll(rx, link, poll);
      assert false;
    }
    if rx.accepted == U64_LIMIT {
      ExhaustedPoll(rx, link, peer, poll, i);
      return i;
    }
    if GroupOf(link, poll.listing) == [] || !poll.registered {
      return i;
    }
    PeerArrivals(rx, link, peer, poll);
    SweptIsOld(rx, link, peer, poll, i);
    j := DeliverAllPeer(Swept(rx, link, poll), SortBy(poll.arrivals, SeqnoOfPrepared), link, peer, i);
  }

  // ---------- Deletion never loses data ----------

  lemma {:induction false} ClosedRun<E>(rx: Rx<E>, link: Link<E>, polls: seq<Poll>)
    requires rx.room == Some(0)
    ensures Run(rx, link, polls).room == Some(0)
    decreases |polls|
  {
    if polls != [] {
      ClosedPoll(rx, link, polls[0]);
      ClosedRun(PollStep(rx, link, polls[0]), link, polls[1..]);
    }
  }

  lemma {:induction false} RunSettled<E>(rx: Rx<E>, link: Link<E>, peer: Peer, polls: seq<Poll>, i: nat) returns (j: nat)
    requires WellCut(link, peer.batches)
    requires forall k {:trigger polls[k]} :: 0 <= k < |polls| ==> Listed(link, peer, polls[k].listing)
    requires PossibleRun(rx, link, polls) && Settled(rx, peer, i)
    requires Run(rx, link, polls).room != Some(0)
    ensures Settled(Run(rx, link, polls), peer, j)
    decreases |polls|
  {
    if polls == [] {
      return i;
    }
    var rx' := PollStep(rx, link, polls[0]);
    if rx'.room == Some(0) {
      ClosedRun(rx', link, polls[1..]);
      assert false;
    }
    j := PollSettled(rx, link, peer, polls[0], i);
    forall k | 0 <= k < |polls[1..]|
      ensures Listed(link, peer, polls[1..][k].listing)
    {
      assert polls[1..][k] == polls[k + 1];
    }
    j := RunSettled(rx', link, peer, polls[1..], j);
  }

  /** The mailbox holds every frame of this batch, translated, at the places of its seqs. */
  ghost predicate Delivered<E>(rx: Rx<E>, convert: WireFrame -> Option<E>, batch: Batch, start: nat) {
    && start + |batch.frames| <= |rx.events|
    && forall k {:trigger batch.frames[k]} :: 0 <= k < |batch.frames| ==>
         convert(batch.frames[k]) == Some(rx.events[start + k])
  }

  lemma BelowIsDelivered<E>(rx: Rx<E>, convert: WireFrame -> Option<E>, batches: seq<Batch>, m: nat)
    requires InOrder(rx, convert, Truth(batches))
    requires m < |batches| && Start(batches, m) + |batches[m].frames| <= rx.accepted
    ensures Delivered(rx, convert, batches[m], Start(batches, m))
  {
    forall k | 0 <= k < |batches[m].frames|
      ensures convert(batches[m].frames[k]) == Some(rx.events[Start(batches, m) + k])
    {
      FrameIsDelivered(rx, convert, batches, m, k);
    }
  }

  lemma FrameIsDelivered<E>(rx: Rx<E>, convert: WireFrame -> Option<E>, batches: seq<Batch>, m: nat, k: nat)
    requires InOrder(rx, convert, Truth(batches))
    requires m < |batches| && k < |batches[m].frames| && Start(batches, m) + k < rx.accepted
    ensures convert(batches[m].frames[k]) == Some(rx.events[Start(batches, m) + k])
  {
    var at := Start(batches, m) + k;
    StreamAt(batches, m, k);
    TruthAt(batches, at);
    assert convert(Truth(batches)(at)) == Some(rx.events[at]);
  }

  lemma RunFromPeer<E>(link: Link<E>, peer: Peer, room: Option<nat>, polls: seq<Poll>)
    requires Contiguous(link, peer.batches)
    requires forall k {:trigger polls[k]} :: 0 <= k < |polls| ==> Listed(link, peer, polls[k].listing)
    requires PossibleRun(Fresh(room), link, polls)
    ensures InOrder(Run(Fresh(room), link, polls), link.convert, Truth(peer.batches))
  {
    forall k | 0 <= k < |polls|
      ensures Authentic(link, polls[k].listing, Truth(peer.batches))
    {
      PeerIsAuthentic(link, peer, polls[k].listing);
    }
    ExactlyOnceInOrder(Fresh(room), link, polls, Truth(peer.batches));
  }

  /** Everything deleted lies below the window, so it was handed over. */
  lemma SettledIsDelivered<E>(rx: Rx<E>, link: Link<E>, peer: Peer, i: nat, id: string)
    requires Contiguous(link, peer.batches) && Settled(rx, peer, i) && id in rx.deleted
    requires InOrder(rx, link.convert, Truth(peer.batches))
    ensures id in peer.files && peer.files[id] < |peer.batches|
    ensures Delivered(rx, link.convert, peer.batches[peer.files[id]], Start(peer.batches, peer.files[id]))
  {
    CutNoneEmpty(link, peer.batches);
    StartRises(peer.batches, peer.files[id], i);
    BelowIsDelivered(rx, link.convert, peer.batches, peer.files[id]);
  }

  /**
   While the session driver is still receiving, a file the receiver deleted has
   had every one of its frames handed over: they stand in the mailbox.
   */
  lemma DeletionNeverLosesData<E>(link: Link<E>, peer: Peer, room: Option<nat>, polls: seq<Poll>, id: string)
    requires WellCut(link, peer.batches)
    requires forall k {:trigger polls[k]} :: 0 <= k < |polls| ==> Listed(link, peer, polls[k].listing)
    requires PossibleRun(Fresh(room), link, polls)
    requires Run(Fresh(room), link, polls).room != Some(0)
    requires id in Run(Fresh(room), link, polls).deleted
    ensures id in peer.files && peer.files[id] < |peer.batches|
    ensures Delivered(Run(Fresh(room), link, polls), link.convert,
                      peer.batches[peer.files[id]], Start(peer.batches, peer.files[id]))
  {
    var i := RunSettled(Fresh(room), link, peer, polls, 0);
    RunFromPeer(link, peer, room, polls);
    SettledIsDelivered(Run(Fresh(room), link, polls), link, peer, i, id);
  }

  // ---------- Concurrent prefetch refines sequential delivery ----------

  /** The listing shows batch m and its download opened. */
  ghost predicate Usable<E>(link: Link<E>, peer: Peer, listing: seq<Shown>, m: nat) {
    exists s :: s in listing && ForLink(link, s) && s.fetch.Opened? && s.file.id in peer.files && peer.files[s.file.id] == m
  }

  /** Where a reader stops that takes batches one at a time while the next one is usable. */
  ghost function SequentialEnd<E>(link: Link<E>, peer: Peer, listing: seq<Shown>, i: nat): (j: nat)
    requires i <= |peer.batches|
    ensures i <= j <= |peer.batches|
    decreases |peer.batches| - i
  {
    if i == |peer.batches| || !Usable(link, peer, listing, i) then i
    else SequentialEnd(link, peer, listing, i + 1)
  }

  lemma {:induction false} SequentialEndUnique<E>(link: Link<E>, peer: Peer, listing: seq<Shown>, i: nat, j: nat)
    requires i <= j <= |peer.batches|
    requires forall m {:trigger Usable(link, peer, listing, m)} :: i <= m < j ==> Usable(link, peer, listing, m)
    requires j == |peer.batches| || !Usable(link, peer, listing, j)
    ensures SequentialEnd(link, peer, listing, i) == j
    decreases |peer.batches| - i
  {
    if i < j {
      assert Usable(link, peer, listing, i);
      SequentialEndUnique(link, peer, listing, i + 1, j);
    }
  }

  lemma SortedHead(group: seq<Shown>)
    requires SortedBy(group, SeqnoOfShown) && group != []
    ensures forall s {:trigger s in group} :: s in group ==> group[0].file.name.seqno <= s.file.name.seqno
  {
    forall s | s in group
      ensures group[0].file.name.seqno <= s.file.name.seqno
    {
      var k :| 0 <= k < |group| && group[k] == s;
      assert SeqnoOfShown(group[0]) <= SeqnoOfShown(group[k]);
    }
  }

  /** In a sorted group, seeing the expected seq opens the gate for every later file. */
  lemma {:induction false} ScanSorted(group: seq<Shown>, direction: Direction, expected: nat, saw: bool)
    requires SortedBy(group, SeqnoOfShown)
    requires forall s {:trigger s in group} :: s in group ==> s.file.name.kind == FrameFile(direction)
    requires saw || exists s :: s in group && s.file.name.seqno == expected
    ensures forall s :: s in group && expected <= s.file.name.seqno ==>
      s in Scan(group, direction, expected, saw).fetch
  {
    if group != [] {
      var head, rest := group[0], group[1..];
      assert head in group;
      assert forall s :: s in group <==> s == head || s in rest;
      SortedHead(group);
      ScanSorted(rest, direction, expected, saw || head.file.name.seqno == expected);
    }
  }

  lemma FetchedAfterFirst<E>(rx: Rx<E>, link: Link<E>, poll: Poll, first: Shown, s: Shown)
    requires first in poll.listing && ForLink(link, first) && first.file.name.seqno == rx.accepted
    requires s in poll.listing && ForLink(link, s) && rx.accepted <= s.file.name.seqno
    ensures s in Fetched(rx, link, poll)
  {
    GroupMembers(link, poll.listing);
    assert first in GroupOf(link, poll.listing);
    ScanSorted(GroupOf(link, poll.listing), link.direction, rx.accepted, false);
  }

  lemma UsableFile<E>(link: Link<E>, peer: Peer, listing: seq<Shown>, m: nat) returns (s: Shown)
    requires WellCut(link, peer.batches) && Listed(link, peer, listing)
    requires m < |peer.batches| && Usable(link, peer, listing, m)
    ensures s in listing && ForLink(link, s) && s.file.name.seqno == Start(peer.batches, m)
    ensures Prepare(s).Ready? && HoldsBatch(link, peer, Prepare(s).prepared, m)
  {
    s :| s in listing && ForLink(link, s) && s.fetch.Opened? && s.file.id in peer.files && peer.files[s.file.id] == m;
    assert FromPeer(link, peer, s);
    PeerFilePrepares(link, peer, s);
  }

  lemma UsableIsHeld<E>(rx: Rx<E>, link: Link<E>, peer: Peer, poll: Poll, i: nat, m: nat)
    requires WellCut(link, peer.batches) && Listed(link, peer, poll.listing) && Possible(rx, link, poll)
    requires i <= m < |peer.batches| && rx.accepted == Start(peer.batches, i)
    requires Usable(link, peer, poll.listing, i) && Usable(link, peer, poll.listing, m)
    ensures Holds(link, peer, SortBy(poll.arrivals, SeqnoOfPrepared), m)
  {
    var first := UsableFile(link, peer, poll.listing, i);
    var s := UsableFile(link, peer, poll.listing, m);
    CutOrder(link, peer.batches, m, i);
    FetchedAfterFirst(rx, link, poll, first, s);
    ArrivalOf(rx, link, poll, s);
  }

  lemma HeldIsUsable<E>(rx: Rx<E>, link: Link<E>, peer: Peer, poll: Poll, m: nat)
    requires Contiguous(link, peer.batches) && Listed(link, peer, poll.listing) && Possible(rx, link, poll)
    requires Holds(link, peer, SortBy(poll.arrivals, SeqnoOfPrepared), m)
    ensures Usable(link, peer, poll.listing, m)
  {
    var p :| p in SortBy(poll.arrivals, SeqnoOfPrepared) && HoldsBatch(link, peer, p, m);
    var s := ArrivalSource(rx, link, poll, p);
    PeerFilePrepares(link, peer, s);
  }

  lemma {:induction false} OpenStaysOpen<E>(rx: Rx<E>, ps: seq<Prepared>, convert: WireFrame -> Option<E>)
    requires rx.room == None
    ensures DeliverAll(rx, ps, convert).room == None
    decreases |ps|
  {
    if ps != [] {
      OpenStaysOpen(Deliver(rx, ps[0], convert).0, ps[1..], convert);
    }
  }

  lemma NothingListed<E>(link: Link<E>, peer: Peer, listing: seq<Shown>, m: nat)
    requires GroupOf(link, listing) == []
    ensures !Usable(link, peer, listing, m)
  {
    GroupMembers(link, listing);
  }

  /** The step appends to the mailbox exactly these frames, translated. */
  ghost predicate HandsOver<E>(rx: Rx<E>, rx': Rx<E>, convert: WireFrame -> Option<E>, frames: seq<WireFrame>) {
    && rx.events <= rx'.events && |rx'.events| == |rx.events| + |frames|
    && forall k {:trigger frames[k]} :: 0 <= k < |frames| ==> convert(frames[k]) == Some(rx'.events[|rx.events| + k])
  }

  /**
   With an accepting mailbox, one poll advances the window and fills the mailbox
   exactly as a sequential reader of the same listing would, whatever order the
   downloads finish in: it hands over the frames of batches i, i + 1, ... up to the
   first one that is not usable.
   */
  lemma PrefetchRefinesSequential<E>(rx: Rx<E>, link: Link<E>, peer: Peer, poll: Poll, i: nat)
    requires WellCut(link, peer.batches) && Listed(link, peer, poll.listing) && Possible(rx, link, poll)
    requires i <= |peer.batches| && rx.accepted == Start(peer.batches, i)
    requires rx.room == None && poll.registered
    ensures var rx', j := PollStep(rx, link, poll), SequentialEnd(link, peer, poll.listing, i);
            && rx'.accepted == Start(peer.batches, j) && rx'.room == None
            && Start(peer.batches, i) <= Start(peer.batches, j) <= |Stream(peer.batches)|
            && HandsOver(rx, rx', link.convert, Stream(peer.batches)[Start(peer.batches, i)..Start(peer.batches, j)])
  {
    var j := SequentialEnd(link, peer, poll.listing, i);
    PollReaches(rx, link, peer, poll, i);
    CutNoneEmpty(link, peer.batches);
    StartOrder(peer.batches, j, i);
    StartOrder(peer.batches, |peer.batches|, j);
    PeerIsAuthentic(link, peer, poll.listing);
    PollAppends(rx, link, poll, Truth(peer.batches));
    AppendsStream(rx, PollStep(rx, link, poll), link.convert, peer.batches);
  }

  lemma AppendsStream<E>(rx: Rx<E>, rx': Rx<E>, convert: WireFrame -> Option<E>, batches: seq<Batch>)
    requires Appends(rx, rx', convert, Truth(batches)) && rx.accepted <= rx'.accepted <= |Stream(batches)|
    ensures HandsOver(rx, rx', convert, Stream(batches)[rx.accepted..rx'.accepted])
  {
    var frames := Stream(batches)[rx.accepted..rx'.accepted];
    forall k | 0 <= k < |frames|
      ensures convert(frames[k]) == Some(rx'.events[|rx.events| + k])
    {
      TruthAt(batches, rx.accepted + k);
    }
  }

  lemma ExhaustedIsEnd<E>(link: Link<E>, peer: Peer, i: nat)
    requires Contiguous(link, peer.batches) && i <= |peer.batches| && Start(peer.batches, i) == U64_LIMIT
    ensures i == |peer.batches|
  {
    if i < |peer.batches| {
      assert ContiguousAt(link, peer.batches[i], Start(peer.batches, i));
      SeqnoIsPlace(link, peer.batches, i, 0);
    }
  }

  lemma PollReaches<E>(rx: Rx<E>, link: Link<E>, peer: Peer, poll: Poll, i: nat)
    requires WellCut(link, peer.batches) && Listed(link, peer, poll.listing) && Possible(rx, link, poll)
    requires i <= |peer.batches| && rx.accepted == Start(peer.batches, i)
    requires rx.room == None && poll.registered
    ensures PollStep(rx, link, poll).accepted
         == Start(peer.batches, SequentialEnd(link, peer, poll.listing, i))
    ensures PollStep(rx, link, poll).room == None
  {
    if GroupOf(link, poll.listing) == [] {
      NothingListed(link, peer, poll.listing, i);
    } else if rx.accepted == U64_LIMIT {
      ExhaustedIsEnd(link, peer, i);
    } else {
      var ps := SortBy(poll.arrivals, SeqnoOfPrepared);
      PeerArrivals(rx, link, peer, poll);
      OpenStaysOpen(Swept(rx, link, poll), ps, link.convert);
      var j := DeliverAllPeer(Swept(rx, link, poll), ps, link, peer, i);
      CommitEnd(rx, link, peer, poll, i, j);
    }
  }

  lemma CommitEnd<E>(rx: Rx<E>, link: Link<E>, peer: Peer, poll: Poll, i: nat, j: nat)
    requires WellCut(link, peer.batches) && Listed(link, peer, poll.listing) && Possible(rx, link, poll)
    requires i <= j <= |peer.batches| && rx.accepted == Start(peer.batches, i)
    requires forall m {:trigger Holds(link, peer, SortBy(poll.arrivals, SeqnoOfPrepared), m)} ::
      i <= m < j ==> Holds(link, peer, SortBy(poll.arrivals, SeqnoOfPrepared), m)
    requires !Holds(link, peer, SortBy(poll.arrivals, SeqnoOfPrepared), j)
    ensures SequentialEnd(link, peer, poll.listing, i) == j
  {
    forall m | i <= m < j
      ensures Usable(link, peer, poll.listing, m)
    {
      assert Holds(link, peer, SortBy(poll.arrivals, SeqnoOfPrepared), m);
      HeldIsUsable(rx, link, peer, poll, m);
    }
    if j < |peer.batches| && Usable(link, peer, poll.listing, j) {
      UsableIsHeld(rx, link, peer, poll, i, j);
      assert false;
    }
    SequentialEndUnique(link, peer, poll.listing, i, j);
  }

  // ---------- The stream behind the batches ----------

  const NO_SESSION: SessionId := [0, 0, 0, 0, 0, 0, 0, 0, 0, 0, 0, 0, 0, 0, 0, 0]

  ghost function FrameAt(stream: seq<WireFrame>, i: nat): WireFrame {
    if i < |stream| then stream[i] else BuildWireFrame(Close, NO_SESSION, 0, [])
  }

  /** The peer's frame for each seq; past the end of the stream any frame will do. */
  ghost function Truth(batches: seq<Batch>): nat -> WireFrame {
    var stream := Stream(batches);
    (i: nat) => FrameAt(stream, i)
  }

  lemma TruthAt(batches: seq<Batch>, i: nat)
    requires i < |Stream(batches)|
    ensures Truth(batches)(i) == Stream(batches)[i]
  {}

  lemma SeqnoIsPlace<E>(link: Link<E>, batches: seq<Batch>, m: nat, k: nat)
    requires Contiguous(link, batches) && m < |batches| && k < |batches[m].frames|
    ensures batches[m].frames[k].seqno == Start(batches, m) + k
  {
    assert ContiguousAt(link, batches[m], Start(batches, m));
  }

  lemma BatchIsAuthentic<E>(link: Link<E>, batches: seq<Batch>, m: nat)
    requires Contiguous(link, batches) && m < |batches|
    ensures AuthenticBatch(link.sid, batches[m], Truth(batches))
  {
    var frames := batches[m].frames;
    forall f | f in frames && f.sid == link.sid
      ensures f == Truth(batches)(f.seqno)
    {
      var k :| 0 <= k < |frames| && frames[k] == f;
      SeqnoIsPlace(link, batches, m, k);
      StreamAt(batches, m, k);
      TruthAt(batches, f.seqno);
    }
  }

  /** A peer that cuts its stream into files meets the authenticity hypothesis. */
  lemma PeerIsAuthentic<E>(link: Link<E>, peer: Peer, listing: seq<Shown>)
    requires Contiguous(link, peer.batches) && Listed(link, peer, listing)
    ensures Authentic(link, listing, Truth(peer.batches))
  {
    forall s | s in listing && ForLink(link, s) && Prepare(s).Ready?
      ensures AuthenticBatch(link.sid, Prepare(s).prepared.batch, Truth(peer.batches))
    {
      PeerFilePrepares(link, peer, s);
      BatchIsAuthentic(link, peer.batches, peer.files[s.file.id]);
    }
  }

  // ---------- Why legality matters ----------

  /**
   Without the legality hypothesis deletion can lose data, and this is exactly
   when: the batch opens with a frame the translation accepts and holds a later
   one it rejects. The file is then deleted with frames undelivered.
   */
  lemma IllegalKindLosesTail<E>(rx: Rx<E>, p: Prepared, link: Link<E>)
    requires ContiguousAt(link, p.batch, rx.accepted) && p.file.name.sid == link.sid
    requires rx.room == None && p.file.id !in rx.deleted
    ensures var rx' := Deliver(rx, p, link.convert).0;
            p.file.id in rx'.deleted && rx'.accepted < rx.accepted + |p.batch.frames|
            <==> link.convert(p.batch.frames[0]).Some? && !Legal(link, p.batch)
  {
    var frames := p.batch.frames;
    var n := RunLength(frames, link.sid, rx.accepted, rx.room, link.convert);
    assert frames[0].sid == link.sid;
    if n < |frames| {
      assert frames[n].sid == link.sid && link.convert(frames[n]).None?;
    }
  }

  /** For instance, an r2c file holding Data then Connect. */
  lemma ConnectAfterDataIsLost(sid: SessionId, file: DriveFile, bytes: seq<byte>)
    requires file.name == DriveFilename(FrameFile(RelayToClient), sid, 0)
    ensures var frames := [BuildWireFrame(Data, sid, 0, bytes), BuildWireFrame(Connect, sid, 1, [])];
            var (rx, outcome) := Deliver(Fresh(None), Prepared(file, Batch(frames)), WireToInbound);
            outcome == Consumed && rx.events == [InData(bytes)] && file.id in rx.deleted && rx.accepted == 1 < |frames|
  {
    var frames := [BuildWireFrame(Data, sid, 0, bytes), BuildWireFrame(Connect, sid, 1, [])];
    RunLengthUnique(frames, sid, 0, None, WireToInbound, 1);
    assert Events(frames[..1], WireToInbound) == [InData(bytes)];
  }
}
