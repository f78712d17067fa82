/**
 Runs of polls, and what holds over all of them against any peer that gives each
 seq to one frame: exactly-once, in-order delivery.
 */
module Delivery {
  import opened Prelude
  import opened Wire
  import opened Receiver

  // ---------- Runs ----------

  /** One poll: any listing of the folder, in any order, with any fetch outcomes and any finishing order. */
  datatype Poll = Poll(listing: seq<Shown>, arrivals: seq<Prepared>, registered: bool)

  predicate ForLink<E>(link: Link<E>, s: Shown) {
    s.file.name.kind == FrameFile(link.direction) && s.file.name.sid == link.sid
  }

  function Relevant<E>(link: Link<E>, listing: seq<Shown>): seq<Shown> {
    if listing == [] then []
    else (if ForLink(link, listing[0]) then [listing[0]] else []) + Relevant(link, listing[1..])
  }

  /** The cycle keeps this session's files and sorts them numerically by seq. */
  function GroupOf<E>(link: Link<E>, listing: seq<Shown>): seq<Shown> {
    SortBy(Relevant(link, listing), SeqnoOfShown)
  }

  function Fetched<E>(rx: Rx<E>, link: Link<E>, poll: Poll): seq<Shown> {
    Scan(GroupOf(link, poll.listing), link.direction, rx.accepted, false).fetch
  }

  /** The state when the commit phase starts: stale and oversized files are already deleted. */
  function Swept<E>(rx: Rx<E>, link: Link<E>, poll: Poll): Rx<E> {
    var plan := Scan(GroupOf(link, poll.listing), link.direction, rx.accepted, false);
    rx.(deleted := rx.deleted + plan.stale + DiscardIds(plan.fetch))
  }

  function PollStep<E>(rx: Rx<E>, link: Link<E>, poll: Poll): Rx<E> {
    Process(rx, link, GroupOf(link, poll.listing), poll.arrivals, poll.registered)
  }

  /**
   The arrivals are the usable downloads in some order. The client's session leaves
   its table only after its driver stopped receiving; the relay's may not be in it yet.
   */
  ghost predicate Possible<E>(rx: Rx<E>, link: Link<E>, poll: Poll) {
    && multiset(poll.arrivals) == multiset(Readies(Fetched(rx, link, poll)))
    && (!poll.registered && link.direction == RelayToClient ==> rx.room == Some(0))
  }

  ghost predicate PossibleRun<E>(rx: Rx<E>, link: Link<E>, polls: seq<Poll>)
    decreases |polls|
  {
    polls != [] ==>
      Possible(rx, link, polls[0]) && PossibleRun(PollStep(rx, link, polls[0]), link, polls[1..])
  }

  function Run<E>(rx: Rx<E>, link: Link<E>, polls: seq<Poll>): Rx<E>
    decreases |polls|
  {
    if polls == [] then rx else Run(PollStep(rx, link, polls[0]), link, polls[1..])
  }

  function Fresh<E>(room: Option<nat>): Rx<E> { Rx(0, [], room, {}) }

  // ---------- What a group call can touch ----------

  lemma {:induction false} RelevantMembers<E>(link: Link<E>, listing: seq<Shown>)
    ensures forall s :: s in Relevant(link, listing) <==> s in listing && ForLink(link, s)
  {
    if listing != [] {
      RelevantMembers(link, listing[1..]);
      assert listing == [listing[0]] + listing[1..];
    }
  }

  lemma GroupMembers<E>(link: Link<E>, listing: seq<Shown>)
    ensures forall s :: s in GroupOf(link, listing) <==> s in listing && ForLink(link, s)
    ensures SortedBy(GroupOf(link, listing), SeqnoOfShown)
  {
    RelevantMembers(link, listing);
    SameElements(GroupOf(link, listing), Relevant(link, listing));
    SortBySorted(Relevant(link, listing), SeqnoOfShown);
  }

  lemma {:induction false} ScanMembers(group: seq<Shown>, direction: Direction, expected: nat, saw: bool)
    ensures forall s :: s in Scan(group, direction, expected, saw).fetch ==>
      s in group && s.file.name.kind == FrameFile(direction) && expected <= s.file.name.seqno
    ensures forall id :: id in Scan(group, direction, expected, saw).stale ==>
      exists s :: s in group && s.file.id == id && s.file.name.seqno < expected
  {
    if group != [] {
      var name := group[0].file.name;
      ScanMembers(group[1..], direction, expected, saw);
      ScanMembers(group[1..], direction, expected, true);
      assert forall s :: s in group[1..] ==> s in group;
      assert group[0] in group;
    }
  }

  lemma {:induction false} ReadiesMembers(xs: seq<Shown>)
    ensures forall p :: p in Readies(xs) <==> exists s :: s in xs && Prepare(s) == Ready(p)
  {
    if xs != [] {
      ReadiesMembers(xs[1..]);
      assert forall s :: s in xs <==> s == xs[0] || s in xs[1..];
    }
  }

  /** A batch handed to the commit phase came from a listed file at or above the window. */
  lemma ArrivalSource<E>(rx: Rx<E>, link: Link<E>, poll: Poll, p: Prepared) returns (s: Shown)
    requires Possible(rx, link, poll)
    requires p in SortBy(poll.arrivals, SeqnoOfPrepared)
    ensures s in poll.listing && ForLink(link, s) && s in Fetched(rx, link, poll)
    ensures Prepare(s) == Ready(p) && p.file == s.file && rx.accepted <= s.file.name.seqno
  {
    var fetched := Fetched(rx, link, poll);
    SameElements(SortBy(poll.arrivals, SeqnoOfPrepared), Readies(fetched));
    ReadiesMembers(fetched);
    s :| s in fetched && Prepare(s) == Ready(p);
    PreparedFrom(s);
    ScanMembers(GroupOf(link, poll.listing), link.direction, rx.accepted, false);
    GroupMembers(link, poll.listing);
  }

  /** Every usable download reaches the commit phase. */
  lemma ArrivalOf<E>(rx: Rx<E>, link: Link<E>, poll: Poll, s: Shown)
    requires Possible(rx, link, poll)
    requires s in Fetched(rx, link, poll) && Prepare(s).Ready?
    ensures Prepare(s).prepared in SortBy(poll.arrivals, SeqnoOfPrepared)
  {
    var fetched := Fetched(rx, link, poll);
    SameElements(SortBy(poll.arrivals, SeqnoOfPrepared), Readies(fetched));
    ReadiesMembers(fetched);
  }

  // ---------- Exactly once, in order ----------

  /** The events handed over are the peer's frames 0..accepted, translated, each once. */
  ghost predicate InOrder<E>(rx: Rx<E>, convert: WireFrame -> Option<E>, truth: nat -> WireFrame) {
    && |rx.events| == rx.accepted <= U64_LIMIT
    && forall i {:trigger rx.events[i]} :: 0 <= i < rx.accepted ==> convert(truth(i)) == Some(rx.events[i])
  }

  /** Every frame of this session in the batch is the one the peer gave that seq. */
  ghost predicate AuthenticBatch(sid: SessionId, batch: Batch, truth: nat -> WireFrame) {
    forall f {:trigger f in batch.frames} :: f in batch.frames && f.sid == sid ==> f == truth(f.seqno)
  }

  ghost predicate Authentic<E>(link: Link<E>, listing: seq<Shown>, truth: nat -> WireFrame) {
    forall s {:trigger s in listing} :: s in listing && ForLink(link, s) && Prepare(s).Ready? ==>
      AuthenticBatch(link.sid, Prepare(s).prepared.batch, truth)
  }

  /** What a step appends to the mailbox are the peer's next frames, translated, one for each seq the window moved. */
  ghost predicate Appends<E>(rx: Rx<E>, rx': Rx<E>, convert: WireFrame -> Option<E>, truth: nat -> WireFrame) {
    && rx.events <= rx'.events && |rx'.events| - |rx.events| == rx'.accepted - rx.accepted
    && (rx.accepted <= U64_LIMIT ==> rx'.accepted <= U64_LIMIT)
    && forall i {:trigger rx'.events[i]} :: |rx.events| <= i < |rx'.events| ==>
         convert(truth(rx.accepted + (i - |rx.events|))) == Some(rx'.events[i])
  }

  lemma AppendsNothing<E>(rx: Rx<E>, rx': Rx<E>, convert: WireFrame -> Option<E>, truth: nat -> WireFrame)
    requires rx'.events == rx.events && rx'.accepted == rx.accepted
    ensures Appends(rx, rx', convert, truth)
  {}

  lemma AppendsThen<E>(rx: Rx<E>, mid: Rx<E>, rx': Rx<E>, convert: WireFrame -> Option<E>, truth: nat -> WireFrame)
    requires Appends(rx, mid, convert, truth) && Appends(mid, rx', convert, truth)
    ensures Appends(rx, rx', convert, truth)
  {
    forall i | |rx.events| <= i < |rx'.events|
      ensures convert(truth(rx.accepted + (i - |rx.events|))) == Some(rx'.events[i])
    {
      if i < |mid.events| {
        assert mid.events[i] == rx'.events[i];
      }
    }
  }

  lemma InOrderAfter<E>(rx: Rx<E>, rx': Rx<E>, convert: WireFrame -> Option<E>, truth: nat -> WireFrame)
    requires InOrder(rx, convert, truth) && Appends(rx, rx', convert, truth)
    ensures InOrder(rx', convert, truth)
  {
    forall i | 0 <= i < rx'.accepted
      ensures convert(truth(i)) == Some(rx'.events[i])
    {
      if i < rx.accepted {
        assert rx.events[i] == rx'.events[i];
      }
    }
  }

  lemma DeliverAppends<E>(rx: Rx<E>, p: Prepared, convert: WireFrame -> Option<E>, truth: nat -> WireFrame)
    requires AuthenticBatch(p.file.name.sid, p.batch, truth)
    ensures Appends(rx, Deliver(rx, p, convert).0, convert, truth)
  {
    var frames := p.batch.frames;
    var n := RunLength(frames, p.file.name.sid, rx.accepted, rx.room, convert);
    if n > 0 {
      var rx' := Deliver(rx, p, convert).0;
      assert frames[n - 1].seqno == rx.accepted + n - 1;
      forall i | |rx.events| <= i < |rx'.events|
        ensures convert(truth(rx.accepted + (i - |rx.events|))) == Some(rx'.events[i])
      {
        var f := frames[i - |rx.events|];
        assert f in frames && f.seqno == rx.accepted + (i - |rx.events|);
        assert rx'.events[i] == Events(frames[..n], convert)[i - |rx.events|];
      }
    }
  }

  lemma {:induction false} DeliverAllAppends<E>(rx: Rx<E>, ps: seq<Prepared>, convert: WireFrame -> Option<E>,
                                                truth: nat -> WireFrame)
    requires forall p {:trigger p in ps} :: p in ps ==> AuthenticBatch(p.file.name.sid, p.batch, truth)
    ensures Appends(rx, DeliverAll(rx, ps, convert), convert, truth)
    decreases |ps|
  {
    if ps != [] {
      assert ps[0] in ps && forall p :: p in ps[1..] ==> p in ps;
      var rx' := Deliver(rx, ps[0], convert).0;
      DeliverAppends(rx, ps[0], convert, truth);
      DeliverAllAppends(rx', ps[1..], convert, truth);
      AppendsThen(rx, rx', DeliverAll(rx', ps[1..], convert), convert, truth);
    }
  }

  lemma AuthenticArrivals<E>(rx: Rx<E>, link: Link<E>, poll: Poll, truth: nat -> WireFrame)
    requires Possible(rx, link, poll) && Authentic(link, poll.listing, truth)
    ensures forall p {:trigger p in SortBy(poll.arrivals, SeqnoOfPrepared)} ::
      p in SortBy(poll.arrivals, SeqnoOfPrepared) ==> AuthenticBatch(p.file.name.sid, p.batch, truth)
  {
    forall p | p in SortBy(poll.arrivals, SeqnoOfPrepared)
      ensures AuthenticBatch(p.file.name.sid, p.batch, truth)
    {
      var s := ArrivalSource(rx, link, poll, p);
      assert AuthenticBatch(link.sid, Prepare(s).prepared.batch, truth);
    }
  }

  /** One poll appends the peer's next frames, whatever was in the mailbox before. */
  lemma PollAppends<E>(rx: Rx<E>, link: Link<E>, poll: Poll, truth: nat -> WireFrame)
    requires Possible(rx, link, poll) && Authentic(link, poll.listing, truth)
    ensures Appends(rx, PollStep(rx, link, poll), link.convert, truth)
  {
    var swept, rx' := Swept(rx, link, poll), PollStep(rx, link, poll);
    if GroupOf(link, poll.listing) == [] || !poll.registered || rx.accepted == U64_LIMIT {
      AppendsNothing(rx, rx', link.convert, truth);
    } else {
      AuthenticArrivals(rx, link, poll, truth);
      DeliverAllAppends(swept, SortBy(poll.arrivals, SeqnoOfPrepared), link.convert, truth);
      AppendsNothing(rx, swept, link.convert, truth);
      AppendsThen(rx, swept, rx', link.convert, truth);
    }
  }

  lemma PollInOrder<E>(rx: Rx<E>, link: Link<E>, poll: Poll, truth: nat -> WireFrame)
    requires InOrder(rx, link.convert, truth)
    requires Possible(rx, link, poll) && Authentic(link, poll.listing, truth)
    ensures InOrder(PollStep(rx, link, poll), link.convert, truth)
  {
    PollAppends(rx, link, poll, truth);
    InOrderAfter(rx, PollStep(rx, link, poll), link.convert, truth);
  }

  /**
   Whatever each poll shows, fails to fetch or repeats, and whenever the driver
   leaves: the mailbox received exactly the peer's frames 0..n-1, translated, each
   once and in order, where n is the replay window's count.
   */
  lemma {:induction false} ExactlyOnceInOrder<E>(rx: Rx<E>, link: Link<E>, polls: seq<Poll>, truth: nat -> WireFrame)
    requires InOrder(rx, link.convert, truth)
    requires PossibleRun(rx, link, polls)
    requires forall k {:trigger polls[k]} :: 0 <= k < |polls| ==> Authentic(link, polls[k].listing, truth)
    ensures InOrder(Run(rx, link, polls), link.convert, truth)
    decreases |polls|
  {
    if polls != [] {
      PollInOrder(rx, link, polls[0], truth);
      forall k | 0 <= k < |polls[1..]|
        ensures Authentic(link, polls[1..][k].listing, truth)
      {
        assert polls[1..][k] == polls[k + 1];
      }
      ExactlyOnceInOrder(PollStep(rx, link, polls[0]), link, polls[1..], truth);
    }
  }
}
