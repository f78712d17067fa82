/**
 The receiving half of the Drive mailbox: one poll lists some of the peer's
 files, prefetches them concurrently, and commits their frames in strict order.

 Everything here is for one session. The relay's loop over c2r files differs from
 the client's in its frame translation, in leaving the files of a session that is
 not in its table, and in a larger cap for the file with seq 0, which carries an
 unsealed Hello; so direction and translation are a `Link`.
 */
module Receiver {
  import opened Prelude
  import opened Wire
  import opened Replay

  datatype Direction = ClientToRelay | RelayToClient

  datatype FilenameKind = HelloFile | FrameFile(direction: Direction)

  datatype DriveFilename = DriveFilename(kind: FilenameKind, sid: SessionId, seqno: u64)

  datatype DriveFile = DriveFile(id: string, size: Option<nat>, name: DriveFilename)

  /** What downloading and opening a listed file yields in this poll, if it is attempted. */
  datatype Fetch = TooLarge | Unavailable | Forged | Opened(plaintext: seq<byte>)

  datatype Shown = Shown(file: DriveFile, fetch: Fetch)

  datatype Prepared = Prepared(file: DriveFile, batch: Batch)

  datatype Inbound = InData(bytes: seq<byte>) | InEof | InClose

  datatype Link<!E> = Link(direction: Direction, sid: SessionId, convert: WireFrame -> Option<E>)

  const TAG_LEN := 16
  const MAX_SEALED_FRAME_BODY_BYTES := HEADER_LEN + MAX_PAYLOAD + TAG_LEN
  const HELLO_BODY_LEN := 64

  /** An encoded batch under the cipher, which appends a tag. */
  function SealedSize(batch: Batch): nat { |EncodeBatch(batch)| + TAG_LEN }

  /** Within the size cap and the frame count. */
  predicate Readable(batch: Batch) {
    SealedSize(batch) <= MAX_SEALED_FRAME_BODY_BYTES && 1 <= |batch.frames| <= MAX_BATCH_FRAMES
  }

  ghost predicate OurVersion(batch: Batch) {
    forall k {:trigger batch.frames[k]} :: 0 <= k < |batch.frames| ==> batch.frames[k].version == WIRE_VERSION
  }

  /** A batch within the size cap decodes to itself, or not at all: exactly when it is readable. */
  lemma FitsDecodes(batch: Batch)
    requires OurVersion(batch) && SealedSize(batch) <= MAX_SEALED_FRAME_BODY_BYTES
    ensures Readable(batch) ==> DecodeBatch(EncodeBatch(batch)) == Ok(batch)
    ensures !Readable(batch) ==> DecodeBatch(EncodeBatch(batch)).Err?
  {
    forall i | 0 <= i < |batch.frames|
      ensures Encodable(batch.frames[i])
    {
      FrameWithin(batch.frames, i);
    }
    BatchRoundTrip(batch);
  }

  /** The file that opens a session carries an unsealed Hello in front of the sealed batch. */
  function UnsealedPrefix(name: DriveFilename): nat {
    if name.kind == FrameFile(ClientToRelay) && name.seqno == 0 then HELLO_BODY_LEN else 0
  }

  /** The bytes of the Drive file that carries a plaintext. */
  function BodySize(name: DriveFilename, plaintext: seq<byte>): nat { UnsealedPrefix(name) + |plaintext| + TAG_LEN }

  function SizeCap(name: DriveFilename): nat { MAX_SEALED_FRAME_BODY_BYTES + UnsealedPrefix(name) }

  /** The client's translation of an r2c frame for its session driver. */
  function WireToInbound(f: WireFrame): Option<Inbound> {
    match f.kind
    case Data => Some(InData(f.payload))
    case Eof => Some(InEof)
    case Close => Some(InClose)
    case Error => Some(InClose)
    case Hello => None
    case Connect => None
  }

  // ---------- Prefetch ----------

  datatype PrepareOutcome = Discarded | Left | Ready(prepared: Prepared)

  /** An oversized file is deleted; one that cannot be used now is left in the folder. */
  function Prepare(s: Shown): PrepareOutcome {
    if s.file.size.Some? && s.file.size.value > SizeCap(s.file.name) then Discarded
    else
      match s.fetch
      case TooLarge => Discarded
      case Unavailable => Left
      case Forged => Left
      case Opened(plaintext) => PrepareBody(s.file, plaintext)
  }

  /** The download stops at the cap; what opens must decode and start at the seq of its name. */
  function PrepareBody(file: DriveFile, plaintext: seq<byte>): PrepareOutcome {
    if BodySize(file.name, plaintext) > SizeCap(file.name) then Discarded
    else
      match DecodeBatch(plaintext)
      case Err(_) => Left
      case Ok(batch) =>
        if batch.frames == [] || batch.frames[0].seqno != file.name.seqno then Left
        else Ready(Prepared(file, batch))
  }

  /** A batch is prepared from its own file, and starts at the seq of its name. */
  lemma PreparedFrom(s: Shown)
    requires Prepare(s).Ready?
    ensures var p := Prepare(s).prepared;
            p.file == s.file && p.batch.frames != [] && p.batch.frames[0].seqno == s.file.name.seqno
  {}

  function ReadyOf(s: Shown): seq<Prepared> {
    if Prepare(s).Ready? then [Prepare(s).prepared] else []
  }

  function DiscardOf(s: Shown): set<string> {
    if Prepare(s).Discarded? then {s.file.id} else {}
  }

  function Readies(xs: seq<Shown>): seq<Prepared> {
    if xs == [] then [] else ReadyOf(xs[0]) + Readies(xs[1..])
  }

  function DiscardIds(xs: seq<Shown>): set<string> {
    if xs == [] then {} else DiscardOf(xs[0]) + DiscardIds(xs[1..])
  }

  function Ids(xs: seq<Shown>): set<string> { set s | s in xs :: s.file.id }

  datatype Plan = Plan(stale: set<string>, fetch: seq<Shown>)

  /**
   Walk the listed group: files below the expected seq are stale, and downloads
   start only once the expected seq itself has been seen.
   */
  function Scan(group: seq<Shown>, direction: Direction, expected: nat, saw: bool): Plan {
    if group == [] then Plan({}, [])
    else
      var name, rest := group[0].file.name, group[1..];
      if name.kind != FrameFile(direction) then Scan(rest, direction, expected, saw)
      else if name.seqno < expected then
        var plan := Scan(rest, direction, expected, saw);
        plan.(stale := {group[0].file.id} + plan.stale)
      else if name.seqno == expected || saw then
        var plan := Scan(rest, direction, expected, true);
        plan.(fetch := [group[0]] + plan.fetch)
      else Plan({}, [])
  }

  function SeqnoOfShown(s: Shown): int { s.file.name.seqno }

  function SeqnoOfPrepared(p: Prepared): int { p.file.name.seqno }

  // ---------- Ordered delivery ----------

  datatype DeliveryOutcome = Consumed | Duplicate | Blocked

  /**
   `room` counts the sends the mailbox still accepts before the session driver
   drops its end; None if it never does.
   */
  datatype Rx<E> = Rx(accepted: nat, events: seq<E>, room: Option<nat>, deleted: set<string>)

  /** The longest run of leading frames that continues the stream and can be handed over. */
  function RunLength<E>(frames: seq<WireFrame>, sid: SessionId, next: nat, room: Option<nat>,
                        convert: WireFrame -> Option<E>): (n: nat)
    ensures n <= |frames|
    ensures room.Some? ==> n <= room.value
    ensures forall i {:trigger frames[i]} :: 0 <= i < n ==>
      frames[i].sid == sid && frames[i].seqno == next + i && convert(frames[i]).Some?
    ensures n < |frames| ==>
      frames[n].sid != sid || frames[n].seqno != next + n || convert(frames[n]).None? || room == Some(n)
  {
    if frames == [] || frames[0].sid != sid || frames[0].seqno != next || convert(frames[0]).None? || room == Some(0)
    then 0
    else
      var rest := frames[1..];
      var n := RunLength(rest, sid, next + 1, Spend(room, 1), convert);
      assert forall i {:trigger frames[i]} :: 1 <= i < |frames| ==> frames[i] == rest[i - 1];
      1 + n
  }

  lemma RunLengthUnique<E>(frames: seq<WireFrame>, sid: SessionId, next: nat, room: Option<nat>,
                           convert: WireFrame -> Option<E>, n: nat)
    requires n <= |frames| && (room.Some? ==> n <= room.value)
    requires forall i {:trigger frames[i]} :: 0 <= i < n ==>
      frames[i].sid == sid && frames[i].seqno == next + i && convert(frames[i]).Some?
    requires n < |frames| ==>
      frames[n].sid != sid || frames[n].seqno != next + n || convert(frames[n]).None? || room == Some(n)
    ensures RunLength(frames, sid, next, room, convert) == n
  {
    var m := RunLength(frames, sid, next, room, convert);
  }

  /** The first n frames are the next n of the session and all translate. */
  ghost predicate Deliverable<E>(frames: seq<WireFrame>, sid: SessionId, next: nat, convert: WireFrame -> Option<E>, n: nat) {
    && n <= |frames|
    && forall i {:trigger frames[i]} :: 0 <= i < n ==>
         frames[i].sid == sid && frames[i].seqno == next + i && convert(frames[i]).Some?
  }

  lemma EventsGrow<E>(before: seq<E>, frames: seq<WireFrame>, sid: SessionId, next: nat, convert: WireFrame -> Option<E>, n: nat)
    requires n < |frames| && Deliverable(frames, sid, next, convert, n)
    requires frames[n].sid == sid && frames[n].seqno == next + n && convert(frames[n]).Some?
    ensures Deliverable(frames, sid, next, convert, n + 1)
    ensures before + Events(frames[..n + 1], convert) == before + Events(frames[..n], convert) + [convert(frames[n]).value]
  {
    assert Events(frames[..n + 1], convert) == Events(frames[..n], convert) + [convert(frames[n]).value];
  }

  function Spend(room: Option<nat>, n: nat): Option<nat>
    requires room.Some? ==> n <= room.value
  {
    match room
    case None => None
    case Some(k) => Some(k - n)
  }

  function Events<E>(frames: seq<WireFrame>, convert: WireFrame -> Option<E>): (es: seq<E>)
    requires forall i :: 0 <= i < |frames| ==> convert(frames[i]).Some?
  {
    seq(|frames|, i requires 0 <= i < |frames| => convert(frames[i]).value)
  }

  /** The batch starts below the window. */
  predicate OldStart<E>(rx: Rx<E>, p: Prepared) {
    var frames := p.batch.frames;
    frames != [] && frames[0].sid == p.file.name.sid && frames[0].seqno < rx.accepted
  }

  /** A batch is consumed and deleted as soon as one of its frames was handed over. */
  function Deliver<E>(rx: Rx<E>, p: Prepared, convert: WireFrame -> Option<E>): (Rx<E>, DeliveryOutcome) {
    var frames, sid := p.batch.frames, p.file.name.sid;
    var n := RunLength(frames, sid, rx.accepted, rx.room, convert);
    if n > 0 then
      (Rx(rx.accepted + n, rx.events + Events(frames[..n], convert), Spend(rx.room, n), rx.deleted + {p.file.id}),
       Consumed)
    else if OldStart(rx, p) then
      (rx.(deleted := rx.deleted + {p.file.id}), Duplicate)
    else
      (rx, Blocked)
  }

  /** The outcome by the number of frames handed over. */
  lemma DeliverIs<E>(rx: Rx<E>, p: Prepared, convert: WireFrame -> Option<E>, n: nat)
    requires n == RunLength(p.batch.frames, p.file.name.sid, rx.accepted, rx.room, convert)
    ensures var events, room := rx.events + Events(p.batch.frames[..n], convert), Spend(rx.room, n);
            && (n > 0 ==>
                  Deliver(rx, p, convert) == (Rx(rx.accepted + n, events, room, rx.deleted + {p.file.id}), Consumed))
            && (n == 0 ==> events == rx.events && room == rx.room)
            && (n == 0 && OldStart(rx, p) ==>
                  Deliver(rx, p, convert) == (rx.(deleted := rx.deleted + {p.file.id}), Duplicate))
            && (n == 0 && !OldStart(rx, p) ==> Deliver(rx, p, convert) == (rx, Blocked))
  {}

  function DeliverAll<E>(rx: Rx<E>, ps: seq<Prepared>, convert: WireFrame -> Option<E>): Rx<E>
    decreases |ps|
  {
    if ps == [] then rx
    else
      var (rx', outcome) := Deliver(rx, ps[0], convert);
      if outcome.Blocked? then rx' else DeliverAll(rx', ps[1..], convert)
  }

  /**
   One group call. `arrivals` is the order in which the download tasks finished;
   `registered` says whether the session is in the table. Without a session the
   client deletes the files and the relay leaves them.
   */
  function Process<E>(rx: Rx<E>, link: Link<E>, group: seq<Shown>, arrivals: seq<Prepared>, registered: bool): Rx<E> {
    if group == [] || (!registered && link.direction == ClientToRelay) then rx
    else if !registered || rx.accepted == U64_LIMIT then
      rx.(deleted := rx.deleted + Ids(group))
    else
      var plan := Scan(group, link.direction, rx.accepted, false);
      DeliverAll(rx.(deleted := rx.deleted + plan.stale + DiscardIds(plan.fetch)),
                 SortBy(arrivals, SeqnoOfPrepared), link.convert)
  }

  // ---------- The imperative receiver ----------

  /** What became of one frame: handed over and committed, already seen, or refused for now. */
  datatype FrameStep = Took | Old | Stop

  class Session<E> {
    const link: Link<E>
    const window: ReplayWindow
    var events: seq<E>
    var room: Option<nat>
    var deleted: set<string>

    ghost function View(): Rx<E>
      reads this, window
    {
      Rx(window.Accepted(), events, room, deleted)
    }

    constructor (link: Link<E>, room: Option<nat>)
      ensures fresh(window) && this.link == link
      ensures View() == Rx(0, [], room, {})
    {
      this.link := link;
      this.window := new ReplayWindow();
      this.events, this.room, this.deleted := [], room, {};
    }

    /** The mailbox accepts the event, or reports that the session driver is gone. */
    method Send(event: E) returns (ok: bool)
      modifies this`events, this`room
      ensures ok <==> old(room) != Some(0)
      ensures ok ==> events == old(events) + [event] && room == Spend(old(room), 1)
      ensures !ok ==> events == old(events) && room == old(room)
    {
      if room == Some(0) {
        return false;
      }
      events, room := events + [event], Spend(room, 1);
      return true;
    }

    /** Commit the frames of one prepared batch, in order, until one cannot be. */
    method CommitFrames(frames: seq<WireFrame>, sid: SessionId) returns (n: nat, duplicate: bool)
      modifies this`events, this`room, window
      ensures n == RunLength(frames, sid, old(window.Accepted()), old(room), link.convert)
      ensures window.Accepted() == old(window.Accepted()) + n
      ensures events == old(events) + Events(frames[..n], link.convert)
      ensures room == Spend(old(room), n)
      ensures duplicate <==>
        n == 0 && frames != [] && frames[0].sid == sid && frames[0].seqno < old(window.Accepted())
    {
      n, duplicate := 0, false;
      ghost var next, capacity := window.Accepted(), room;
      while n < |frames|
        invariant 0 <= n <= |frames|
        invariant capacity.Some? ==> n <= capacity.value
        invariant room == Spend(capacity, n)
        invariant window.Accepted() == next + n
        invariant Deliverable(frames, sid, next, link.convert, n)
        invariant events == old(events) + Events(frames[..n], link.convert)
      {
        var step := CommitFrame(frames[n], sid);
        if !step.Took? {
          duplicate := n == 0 && step.Old?;
          break;
        }
        EventsGrow(old(events), frames, sid, next, link.convert, n);
        n := n + 1;
      }
      RunLengthUnique(frames, sid, next, capacity, link.convert, n);
    }

    /** One frame: check the session and the window, translate, send, and only then commit. */
    method CommitFrame(wire: WireFrame, sid: SessionId) returns (step: FrameStep)
      modifies this`events, this`room, window
      ensures step.Took? <==>
        && wire.sid == sid && wire.seqno == old(window.Accepted())
        && link.convert(wire).Some? && old(room) != Some(0)
      ensures step.Old? <==> wire.sid == sid && wire.seqno < old(window.Accepted())
      ensures step.Took? ==>
        && window.Accepted() == old(window.Accepted()) + 1
        && events == old(events) + [link.convert(wire).value] && room == Spend(old(room), 1)
      ensures !step.Took? ==> window.Accepted() == old(window.Accepted()) && events == old(events) && room == old(room)
    {
      if wire.sid != sid {
        return Stop;
      }
      var check := window.CheckNext(wire.seqno);
      if check != Accept {
        return if check.Replayed? then Old else Stop;
      }
      var inbound := link.convert(wire);
      if inbound.None? {
        return Stop;
      }
      var sent := Send(inbound.value);
      if !sent {
        return Stop;
      }
      window.Commit(wire.seqno);
      return Took;
    }

    method DeliverPrepared(p: Prepared) returns (outcome: DeliveryOutcome)
      modifies this, window
      ensures (View(), outcome) == Deliver(old(View()), p, link.convert)
    {
      var n, duplicate := CommitFrames(p.batch.frames, p.file.name.sid);
      DeliverIs(old(View()), p, link.convert, n);
      if n == 0 {
        if duplicate {
          deleted := deleted + {p.file.id};
          return Duplicate;
        }
        return Blocked;
      }
      deleted := deleted + {p.file.id};
      return Consumed;
    }

    /**
     One poll's work on this session's group. The download tasks finish in any
     order; `arrivals` records the order in which usable batches came back.
     */
    method ProcessGroup(group: seq<Shown>, registered: bool) returns (ghost arrivals: seq<Prepared>)
      requires window.Accepted() <= U64_LIMIT
      modifies this, window
      ensures multiset(arrivals) ==
              multiset(Readies(Scan(group, link.direction, old(window.Accepted()), false).fetch))
      ensures View() == Process(old(View()), link, group, arrivals, registered)
    {
      arrivals := Readies(Scan(group, link.direction, window.Accepted(), false).fetch);
      if group == [] || (!registered && link.direction == ClientToRelay) {
        return;
      }
      if !registered || window.Accepted() == U64_LIMIT {
        deleted := deleted + Ids(group);
        return;
      }
      var tasks := StartDownloads(group);
      var prepared := JoinDownloads(tasks);
      arrivals := prepared;
      prepared := SortBy(prepared, SeqnoOfPrepared);

      ghost var goal := DeliverAll(View(), prepared, link.convert);
      var k := 0;
      while k < |prepared|
        invariant 0 <= k <= |prepared|
        invariant DeliverAll(View(), prepared[k..], link.convert) == goal
      {
        assert prepared[k..][0] == prepared[k] && prepared[k..][1..] == prepared[k + 1..];
        var outcome := DeliverPrepared(prepared[k]);
        if outcome.Blocked? {
          return;
        }
        k := k + 1;
      }
    }

    /** Delete what is already below the window; pick the files worth downloading. */
    method StartDownloads(group: seq<Shown>) returns (tasks: seq<Shown>)
      modifies this`deleted
      ensures var plan := Scan(group, link.direction, window.Accepted(), false);
              tasks == plan.fetch && deleted == old(deleted) + plan.stale
    {
      tasks := [];
      var expected, saw, k := window.Accepted(), false, 0;
      ghost var plan := Scan(group, link.direction, expected, false);
      while k < |group|
        invariant 0 <= k <= |group|
        invariant var rest := Scan(group[k..], link.direction, expected, saw);
                  plan.fetch == tasks + rest.fetch && old(deleted) + plan.stale == deleted + rest.stale
      {
        assert group[k..][0] == group[k] && group[k..][1..] == group[k + 1..];
        var file := group[k].file;
        if file.name.kind != FrameFile(link.direction) {
        } else if file.name.seqno < expected {
          deleted := deleted + {file.id};
        } else if file.name.seqno == expected || saw {
          saw := true;
          tasks := tasks + [group[k]];
        } else {
          return;
        }
        k := k + 1;
      }
    }

    /** Join the download tasks in whatever order they finish. */
    method JoinDownloads(downloads: seq<Shown>) returns (prepared: seq<Prepared>)
      modifies this`deleted
      ensures multiset(prepared) == multiset(Readies(downloads))
      ensures deleted == old(deleted) + DiscardIds(downloads)
    {
      prepared := [];
      var running := downloads;
      while running != []
        invariant Joined(downloads, running, prepared, old(deleted), deleted)
        decreases |running|
      {
        var k :| 0 <= k < |running|;
        var done := running[k];
        TaskJoined(downloads, running, k, prepared, old(deleted), deleted);
        running := running[..k] + running[k + 1..];
        prepared := prepared + ReadyOf(done);
        deleted := deleted + DiscardOf(done);
      }
    }
  }

  lemma {:induction false} TasksAppend(xs: seq<Shown>, ys: seq<Shown>)
    ensures Readies(xs + ys) == Readies(xs) + Readies(ys)
    ensures DiscardIds(xs + ys) == DiscardIds(xs) + DiscardIds(ys)
  {
    if xs == [] {
      assert xs + ys == ys;
    } else {
      assert (xs + ys)[1..] == xs[1..] + ys;
      TasksAppend(xs[1..], ys);
    }
  }

  /** Taking one finished task out of the set loses only that task's own contribution. */
  lemma TaskDone(xs: seq<Shown>, k: nat)
    requires k < |xs|
    ensures var rest := xs[..k] + xs[k + 1..];
            && multiset(Readies(xs)) == multiset(ReadyOf(xs[k])) + multiset(Readies(rest))
            && DiscardIds(xs) == DiscardOf(xs[k]) + DiscardIds(rest)
  {
    var later := [xs[k]] + xs[k + 1..];
    assert xs == xs[..k] + later;
    assert later[1..] == xs[k + 1..];
    TasksAppend(xs[..k], later);
    TasksAppend(xs[..k], xs[k + 1..]);
  }

  /** What has been collected and what is still running add up to all the downloads. */
  ghost predicate Joined(downloads: seq<Shown>, running: seq<Shown>, prepared: seq<Prepared>,
                         before: set<string>, deleted: set<string>)
  {
    && multiset(prepared) + multiset(Readies(running)) == multiset(Readies(downloads))
    && deleted + DiscardIds(running) == before + DiscardIds(downloads)
  }

  lemma TaskJoined(downloads: seq<Shown>, running: seq<Shown>, k: nat, prepared: seq<Prepared>,
                   before: set<string>, deleted: set<string>)
    requires k < |running| && Joined(downloads, running, prepared, before, deleted)
    ensures Joined(downloads, running[..k] + running[k + 1..], prepared + ReadyOf(running[k]),
                   before, deleted + DiscardOf(running[k]))
  {
    TaskDone(running, k);
  }
}
