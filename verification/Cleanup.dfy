/**
 Which files a poll deletes: exactly the listed ones that are stale, over the size
 cap, or whose batch was taken or recognised; said of the listing alone.
 */
module Cleanup {
  import opened Prelude
  import opened Wire
  import opened Receiver
  import opened Delivery
  import opened PeerFiles

  /** A file of this link and session in the listing. */
  ghost predicate ListedHere<E>(link: Link<E>, poll: Poll, s: Shown) {
    s in poll.listing && ForLink(link, s)
  }

  /** 4 MiB of payload, a frame header and a tag; 64 bytes more for the file that opens a c2r session. */
  predicate Oversized(s: Shown) {
    var cap := 4 * 1024 * 1024 + 30 + 16 + (if s.file.name.kind == FrameFile(ClientToRelay) && s.file.name.seqno == 0 then 64 else 0);
    var prefix := if s.file.name.kind == FrameFile(ClientToRelay) && s.file.name.seqno == 0 then 64 else 0;
    || (s.file.size.Some? && s.file.size.value > cap)
    || s.fetch == TooLarge
    || (s.fetch.Opened? && prefix + |s.fetch.plaintext| + 16 > cap)
  }

  lemma OversizedIsDiscarded(s: Shown)
    ensures Oversized(s) <==> Prepare(s).Discarded?
  {}

  // ---------- Nothing is taken back ----------

  lemma {:induction false} DeletedGrows<E>(rx: Rx<E>, ps: seq<Prepared>, convert: WireFrame -> Option<E>)
    ensures rx.deleted <= DeliverAll(rx, ps, convert).deleted
    ensures rx.accepted <= DeliverAll(rx, ps, convert).accepted
    decreases |ps|
  {
    if ps != [] {
      DeletedGrows(Deliver(rx, ps[0], convert).0, ps[1..], convert);
    }
  }

  lemma SweptStays<E>(rx: Rx<E>, link: Link<E>, poll: Poll)
    requires GroupOf(link, poll.listing) != [] && poll.registered && rx.accepted != U64_LIMIT
    ensures Swept(rx, link, poll).deleted <= PollStep(rx, link, poll).deleted
  {
    DeletedGrows(Swept(rx, link, poll), SortBy(poll.arrivals, SeqnoOfPrepared), link.convert);
  }

  lemma GroupHas<E>(link: Link<E>, poll: Poll, s: Shown)
    requires ListedHere(link, poll, s)
    ensures s in GroupOf(link, poll.listing) && GroupOf(link, poll.listing) != []
  {
    GroupMembers(link, poll.listing);
  }

  // ---------- What must go ----------

  /** In a sorted group the walk meets every stale file before it can stop. */
  lemma {:induction false} ScanFindsStale(group: seq<Shown>, direction: Direction, expected: nat, saw: bool, s: Shown)
    requires SortedBy(group, SeqnoOfShown) && s in group
    requires s.file.name.kind == FrameFile(direction) && s.file.name.seqno < expected
    ensures s.file.id in Scan(group, direction, expected, saw).stale
  {
    var head, rest := group[0], group[1..];
    SortedHead(group);
    assert group == [head] + rest;
    if s in rest {
      SortedRest(group);
      ScanFindsStale(rest, direction, expected, saw, s);
    }
  }

  lemma SortedRest(group: seq<Shown>)
    requires SortedBy(group, SeqnoOfShown) && group != []
    ensures SortedBy(group[1..], SeqnoOfShown)
  {
    var rest := group[1..];
    assert forall i {:trigger rest[i]} :: 0 <= i < |rest| ==> rest[i] == group[i + 1];
  }

  /** A listed file below the window is deleted. */
  lemma StaleIsDeleted<E>(rx: Rx<E>, link: Link<E>, poll: Poll, s: Shown)
    requires ListedHere(link, poll, s) && s.file.name.seqno < rx.accepted
    requires poll.registered && rx.accepted != U64_LIMIT
    ensures s.file.id in PollStep(rx, link, poll).deleted
  {
    GroupHas(link, poll, s);
    GroupMembers(link, poll.listing);
    ScanFindsStale(GroupOf(link, poll.listing), link.direction, rx.accepted, false, s);
    SweptStays(rx, link, poll);
  }

  lemma {:induction false} DiscardsHas(xs: seq<Shown>, s: Shown)
    requires s in xs && Prepare(s).Discarded?
    ensures s.file.id in DiscardIds(xs)
  {
    if s != xs[0] {
      assert xs == [xs[0]] + xs[1..];
      DiscardsHas(xs[1..], s);
    }
  }

  /** A file over the cap, at or above the window, is deleted as soon as the expected seq is listed too. */
  lemma OversizedIsDeleted<E>(rx: Rx<E>, link: Link<E>, poll: Poll, first: Shown, s: Shown)
    requires ListedHere(link, poll, first) && first.file.name.seqno == rx.accepted
    requires ListedHere(link, poll, s) && rx.accepted <= s.file.name.seqno && Oversized(s)
    requires poll.registered && rx.accepted != U64_LIMIT
    ensures s.file.id in PollStep(rx, link, poll).deleted
  {
    GroupHas(link, poll, s);
    FetchedAfterFirst(rx, link, poll, first, s);
    OversizedIsDiscarded(s);
    DiscardsHas(Fetched(rx, link, poll), s);
    SweptStays(rx, link, poll);
  }

  /** All files of a client session that is gone, and of any session whose counter is exhausted, are deleted. */
  lemma DeadGroupIsDeleted<E>(rx: Rx<E>, link: Link<E>, poll: Poll, s: Shown)
    requires ListedHere(link, poll, s)
    requires (!poll.registered && link.direction == RelayToClient) || (poll.registered && rx.accepted == U64_LIMIT)
    ensures s.file.id in PollStep(rx, link, poll).deleted
    ensures PollStep(rx, link, poll).events == rx.events && PollStep(rx, link, poll).accepted == rx.accepted
  {
    GroupHas(link, poll, s);
  }

  /** The relay does nothing for a session it does not have. */
  lemma UnknownIsLeft<E>(rx: Rx<E>, link: Link<E>, poll: Poll)
    requires !poll.registered && link.direction == ClientToRelay
    ensures PollStep(rx, link, poll) == rx
  {}

  // ---------- What may go ----------

  lemma {:induction false} DiscardsOnly(xs: seq<Shown>, id: string) returns (s: Shown)
    requires id in DiscardIds(xs)
    ensures s in xs && s.file.id == id && Prepare(s).Discarded?
  {
    if id in DiscardOf(xs[0]) {
      return xs[0];
    }
    s := DiscardsOnly(xs[1..], id);
  }

  /** A batch whose file the commit phase deletes starts below the window afterwards. */
  lemma {:induction false} CommitDeletes<E>(rx: Rx<E>, ps: seq<Prepared>, convert: WireFrame -> Option<E>, id: string)
    returns (p: Prepared)
    requires id in DeliverAll(rx, ps, convert).deleted && id !in rx.deleted
    ensures p in ps && p.file.id == id && p.batch.frames != []
    ensures p.batch.frames[0].seqno < DeliverAll(rx, ps, convert).accepted
    decreases |ps|
  {
    var rx' := Deliver(rx, ps[0], convert).0;
    DeletedGrows(rx', ps[1..], convert);
    if id in rx'.deleted {
      var frames, n := ps[0].batch.frames, RunLength(ps[0].batch.frames, ps[0].file.name.sid, rx.accepted, rx.room, convert);
      assert n > 0 ==> frames[0].seqno == rx.accepted;
      return ps[0];
    }
    p := CommitDeletes(rx', ps[1..], convert, id);
  }

  /** A poll of a live session deletes only listed files that were stale, over the cap, or whose batch it reached. */
  lemma DeletedOnlyFor<E>(rx: Rx<E>, link: Link<E>, poll: Poll, id: string) returns (s: Shown)
    requires Possible(rx, link, poll) && poll.registered && rx.accepted != U64_LIMIT
    requires id in PollStep(rx, link, poll).deleted && id !in rx.deleted
    ensures ListedHere(link, poll, s) && s.file.id == id
    ensures s.file.name.seqno < rx.accepted || Oversized(s)
         || (Prepare(s).Ready? && s.file.name.seqno < PollStep(rx, link, poll).accepted)
  {
    var group := GroupOf(link, poll.listing);
    var plan := Scan(group, link.direction, rx.accepted, false);
    GroupMembers(link, poll.listing);
    ScanMembers(group, link.direction, rx.accepted, false);
    if id in plan.stale {
      s :| s in group && s.file.id == id && s.file.name.seqno < rx.accepted;
    } else if id in DiscardIds(plan.fetch) {
      s := DiscardsOnly(plan.fetch, id);
      OversizedIsDiscarded(s);
    } else {
      var p := CommitDeletes(Swept(rx, link, poll), SortBy(poll.arrivals, SeqnoOfPrepared), link.convert, id);
      s := ArrivalSource(rx, link, poll, p);
      PreparedFrom(s);
    }
  }
}
