/**
 The order in which concurrent downloads finish leaves no trace: not in the
 window, not in the mailbox, and not in which files get deleted.
 */
module ArrivalOrder {
  import opened Prelude
  import opened Wire
  import opened Receiver
  import opened Delivery
  import opened PeerFiles

  // ---------- Two sorted listings of the same batches ----------

  ghost predicate Ascending(xs: seq<int>) { forall i, j :: 0 <= i < j < |xs| ==> xs[i] <= xs[j] }

  lemma {:induction false} AscendingUnique(xs: seq<int>, ys: seq<int>)
    requires multiset(xs) == multiset(ys) && Ascending(xs) && Ascending(ys)
    ensures xs == ys
    decreases |xs|
  {
    assert |multiset(xs)| == |xs| && |multiset(ys)| == |ys|;
    if xs != [] {
      FirstAgree(xs, ys);
      DropFirst(xs);
      DropFirst(ys);
      AscendingUnique(xs[1..], ys[1..]);
      assert xs == [xs[0]] + xs[1..] && ys == [ys[0]] + ys[1..];
    }
  }

  lemma FirstAgree(xs: seq<int>, ys: seq<int>)
    requires multiset(xs) == multiset(ys) && Ascending(xs) && Ascending(ys) && xs != [] && ys != []
    ensures xs[0] == ys[0]
  {
    assert xs[0] in multiset(xs) && ys[0] in multiset(ys);
    LeastFirst(xs, ys[0]);
    LeastFirst(ys, xs[0]);
  }

  lemma LeastFirst(xs: seq<int>, y: int)
    requires Ascending(xs) && y in xs
    ensures xs[0] <= y
  {}

  lemma DropFirst(xs: seq<int>)
    requires xs != []
    ensures multiset(xs[1..]) == multiset(xs) - multiset{xs[0]}
    ensures Ascending(xs) ==> Ascending(xs[1..])
  {
    assert xs == [xs[0]] + xs[1..];
  }

  ghost function Seqnos(ps: seq<Prepared>): seq<int> {
    seq(|ps|, i requires 0 <= i < |ps| => SeqnoOfPrepared(ps[i]))
  }

  lemma IndexIn(p: Prepared, b: seq<Prepared>) returns (t: nat)
    requires p in multiset(b)
    ensures t < |b| && b[t] == p
  {
    t :| 0 <= t < |b| && b[t] == p;
  }

  ghost function Removed(ps: seq<Prepared>, t: nat): seq<Prepared>
    requires t < |ps|
  {
    ps[..t] + ps[t + 1..]
  }

  lemma {:induction false} SameSeqnos(a: seq<Prepared>, b: seq<Prepared>)
    requires multiset(a) == multiset(b)
    ensures multiset(Seqnos(a)) == multiset(Seqnos(b))
    decreases |a|
  {
    assert |multiset(a)| == |a| && |multiset(b)| == |b|;
    if a != [] {
      assert a[0] in multiset(a);
      var t := IndexIn(a[0], b);
      RemoveAt(a, 0);
      RemoveAt(b, t);
      SameSeqnos(Removed(a, 0), Removed(b, t));
    }
  }

  lemma RemoveAt(ps: seq<Prepared>, t: nat)
    requires t < |ps|
    ensures |Removed(ps, t)| == |ps| - 1
    ensures multiset(Removed(ps, t)) == multiset(ps) - multiset{ps[t]}
    ensures multiset(Seqnos(ps)) == multiset(Seqnos(Removed(ps, t))) + multiset{SeqnoOfPrepared(ps[t])}
  {
    assert ps == ps[..t] + [ps[t]] + ps[t + 1..];
    var ks := Seqnos(ps);
    assert ks == ks[..t] + [ks[t]] + ks[t + 1..];
    assert Seqnos(Removed(ps, t)) == ks[..t] + ks[t + 1..];
  }

  lemma SortedSameKeys(a: seq<Prepared>, b: seq<Prepared>)
    requires multiset(a) == multiset(b)
    requires SortedBy(a, SeqnoOfPrepared) && SortedBy(b, SeqnoOfPrepared)
    ensures |a| == |b| && forall i :: 0 <= i < |a| ==> SeqnoOfPrepared(a[i]) == SeqnoOfPrepared(b[i])
  {
    SameElements(a, b);
    SameSeqnos(a, b);
    AscendingUnique(Seqnos(a), Seqnos(b));
    forall i | 0 <= i < |a|
      ensures SeqnoOfPrepared(a[i]) == SeqnoOfPrepared(b[i])
    {
      assert Seqnos(a)[i] == Seqnos(b)[i];
    }
  }

  // ---------- How far the commit phase gets ----------

  /** How many leading batches are consumed or recognised as duplicates. */
  function Handled<E>(rx: Rx<E>, ps: seq<Prepared>, convert: WireFrame -> Option<E>): (n: nat)
    ensures n <= |ps|
    decreases |ps|
  {
    if ps == [] || Deliver(rx, ps[0], convert).1.Blocked? then 0
    else 1 + Handled(Deliver(rx, ps[0], convert).0, ps[1..], convert)
  }

  ghost function FileIds(ps: seq<Prepared>): set<string> { set p | p in ps :: p.file.id }

  lemma {:induction false} DeletedAreHandled<E>(rx: Rx<E>, ps: seq<Prepared>, convert: WireFrame -> Option<E>)
    ensures DeliverAll(rx, ps, convert).deleted == rx.deleted + FileIds(ps[..Handled(rx, ps, convert)])
    decreases |ps|
  {
    var n := Handled(rx, ps, convert);
    if n > 0 {
      DeletedAreHandled(Deliver(rx, ps[0], convert).0, ps[1..], convert);
      assert ps[..n] == [ps[0]] + ps[1..][..n - 1];
    }
  }

  /** Same batch under the same session, whichever copy of the file it came from. */
  predicate SameContent(p: Prepared, q: Prepared) {
    p.batch == q.batch && p.file.name.sid == q.file.name.sid
  }

  lemma {:induction false} ContentDecides<E>(rx: Rx<E>, ry: Rx<E>, ps: seq<Prepared>, qs: seq<Prepared>,
                                             convert: WireFrame -> Option<E>)
    requires rx.(deleted := {}) == ry.(deleted := {})
    requires |ps| == |qs| && forall i {:trigger ps[i]} :: 0 <= i < |ps| ==> SameContent(ps[i], qs[i])
    ensures Handled(rx, ps, convert) == Handled(ry, qs, convert)
    ensures DeliverAll(rx, ps, convert).(deleted := {}) == DeliverAll(ry, qs, convert).(deleted := {})
    decreases |ps|
  {
    if ps != [] {
      assert SameContent(ps[0], qs[0]);
      ContentDecides(Deliver(rx, ps[0], convert).0, Deliver(ry, qs[0], convert).0, ps[1..], qs[1..], convert);
    }
  }

  /** A second copy of a batch that was just handled is a duplicate, never blocked. */
  lemma CopyIsDuplicate<E>(rx: Rx<E>, p: Prepared, q: Prepared, convert: WireFrame -> Option<E>)
    requires SameContent(p, q) && !Deliver(rx, p, convert).1.Blocked?
    ensures Deliver(Deliver(rx, p, convert).0, q, convert).1.Duplicate?
  {
    var frames := p.batch.frames;
    var n := RunLength(frames, p.file.name.sid, rx.accepted, rx.room, convert);
    if n > 0 {
      assert frames[0].sid == p.file.name.sid && frames[0].seqno == rx.accepted;
    }
  }

  /** Copies of one seq carry the same content. */
  ghost predicate Coherent(ps: seq<Prepared>) {
    forall p, q {:trigger p in ps, q in ps} :: p in ps && q in ps && SeqnoOfPrepared(p) == SeqnoOfPrepared(q) ==> SameContent(p, q)
  }

  lemma {:induction false} BlockedIsNewSeqno<E>(rx: Rx<E>, ps: seq<Prepared>, convert: WireFrame -> Option<E>)
    requires Coherent(ps)
    ensures var n := Handled(rx, ps, convert);
            0 < n < |ps| ==> SeqnoOfPrepared(ps[n - 1]) != SeqnoOfPrepared(ps[n])
    decreases |ps|
  {
    var n := Handled(rx, ps, convert);
    if 0 < n < |ps| {
      var rx' := Deliver(rx, ps[0], convert).0;
      assert forall p :: p in ps[1..] ==> p in ps;
      if n == 1 {
        assert ps[0] in ps && ps[1] in ps && ps[1..][0] == ps[1];
        if SeqnoOfPrepared(ps[0]) == SeqnoOfPrepared(ps[1]) {
          CopyIsDuplicate(rx, ps[0], ps[1], convert);
        }
      } else {
        BlockedIsNewSeqno(rx', ps[1..], convert);
      }
    }
  }

  /** In sorted order the handled batches are exactly those below the first blocked seq. */
  lemma HandledBelow<E>(rx: Rx<E>, ps: seq<Prepared>, convert: WireFrame -> Option<E>)
    requires Coherent(ps) && SortedBy(ps, SeqnoOfPrepared)
    ensures var n := Handled(rx, ps, convert);
            n < |ps| ==> forall p {:trigger p in ps} ::
              p in ps ==> (p in ps[..n] <==> SeqnoOfPrepared(p) < SeqnoOfPrepared(ps[n]))
  {
    var n := Handled(rx, ps, convert);
    BlockedIsNewSeqno(rx, ps, convert);
    if n < |ps| {
      forall p | p in ps
        ensures p in ps[..n] <==> SeqnoOfPrepared(p) < SeqnoOfPrepared(ps[n])
      {
        if p in ps[..n] {
          var k :| 0 <= k < n && ps[k] == p;
          assert SeqnoOfPrepared(ps[k]) <= SeqnoOfPrepared(ps[n - 1]) <= SeqnoOfPrepared(ps[n]);
        } else {
          var k :| 0 <= k < |ps| && ps[k] == p;
          assert n <= k;
        }
      }
    }
  }

  lemma SameDeleted<E>(rx: Rx<E>, a: seq<Prepared>, b: seq<Prepared>, convert: WireFrame -> Option<E>)
    requires multiset(a) == multiset(b) && Coherent(a)
    requires SortedBy(a, SeqnoOfPrepared) && SortedBy(b, SeqnoOfPrepared)
    ensures DeliverAll(rx, a, convert) == DeliverAll(rx, b, convert)
  {
    SameElements(a, b);
    SortedSameKeys(a, b);
    forall i | 0 <= i < |a|
      ensures SameContent(a[i], b[i])
    {
      assert a[i] in a && b[i] in a;
    }
    ContentDecides(rx, rx, a, b, convert);
    var n := Handled(rx, a, convert);
    DeletedAreHandled(rx, a, convert);
    DeletedAreHandled(rx, b, convert);
    assert forall p :: p in a[..n] <==> p in b[..n] by {
      if n == |a| {
        assert a[..n] == a && b[..n] == b;
      } else {
        HandledBelow(rx, a, convert);
        HandledBelow(rx, b, convert);
        assert SeqnoOfPrepared(a[n]) == SeqnoOfPrepared(b[n]);
        assert forall p :: p in a[..n] ==> p in a;
        assert forall p :: p in b[..n] ==> p in b;
      }
    }
  }

  lemma PeerCoherent<E>(link: Link<E>, peer: Peer, ps: seq<Prepared>)
    requires Contiguous(link, peer.batches) && AllPeer(link, peer, ps)
    ensures Coherent(ps)
  {
    forall p, q | p in ps && q in ps && SeqnoOfPrepared(p) == SeqnoOfPrepared(q)
      ensures SameContent(p, q)
    {
      var m, n := peer.files[p.file.id], peer.files[q.file.id];
      CutOrder(link, peer.batches, m, n);
      CutOrder(link, peer.batches, n, m);
    }
  }

  /**
   Two polls over the same listing whose downloads finish in different orders
   leave the receiver in the same state, down to the set of deleted files, also
   when the listing holds several copies of a file or the driver leaves midway.
   */
  lemma ArrivalOrderIrrelevant<E>(rx: Rx<E>, link: Link<E>, peer: Peer, poll: Poll, other: Poll)
    requires Contiguous(link, peer.batches) && Listed(link, peer, poll.listing)
    requires Possible(rx, link, poll) && Possible(rx, link, other)
    requires poll.listing == other.listing && poll.registered == other.registered
    ensures PollStep(rx, link, poll) == PollStep(rx, link, other)
  {
    var a, b := SortBy(poll.arrivals, SeqnoOfPrepared), SortBy(other.arrivals, SeqnoOfPrepared);
    PeerArrivals(rx, link, peer, poll);
    PeerArrivals(rx, link, peer, other);
    PeerCoherent(link, peer, a);
    SameDeleted(Swept(rx, link, poll), a, b, link.convert);
  }
}
