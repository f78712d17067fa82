/**
 Which profiles a host is tried with: the ones not struck out, a preferred one
 first, and how one connection is reported back to the host's memory.
 */
module ProfileChoice {
  import opened Prelude
  import opened Profiles
  import opened Breaker

  const STRIKE_THRESHOLD := 3
  const FLOOR := 2

  function FragmentingIds(ps: seq<Profile>): seq<string> {
    if ps == [] then []
    else (if IsFragmenting(ps[0]) then [ps[0].id] else []) + FragmentingIds(ps[1..])
  }

  function Unstruck(ids: seq<string>, strikes: map<string, nat>, threshold: nat): seq<string> {
    if ids == [] then []
    else (if StrikesOf(strikes, ids[0]) < threshold then [ids[0]] else []) + Unstruck(ids[1..], strikes, threshold)
  }

  /** `available_profile_ids`. */
  function AvailableIds(strikes: map<string, nat>, threshold: nat, floor: nat): seq<string> {
    var pool := FragmentingIds(PROFILES);
    var filtered := Unstruck(pool, strikes, threshold);
    if |filtered| < floor then pool else filtered
  }

  /** The profiles in rotation for a host with these strikes. */
  function Allowed(strikes: map<string, nat>): set<string> {
    set id | id in AvailableIds(strikes, STRIKE_THRESHOLD, FLOOR)
  }

  /** `local_bypass_preferred_profile`, for any remembered index. */
  function Remembered(last: nat): Profile {
    if last < |PROFILES| && IsFragmenting(PROFILES[last]) then PROFILES[last] else DEFAULT_PROFILE
  }

  function FirstAllowed(ps: seq<Profile>, allowed: set<string>): Option<Profile> {
    if ps == [] then None
    else if ps[0].id in allowed then Some(ps[0])
    else FirstAllowed(ps[1..], allowed)
  }

  function Preferred(last: nat, allowed: set<string>): Profile {
    var global := Remembered(last);
    if global.id in allowed then global
    else if DEFAULT_PROFILE.id in allowed then DEFAULT_PROFILE
    else match FirstAllowed(PROFILES, allowed)
         case Some(p) => p
         case None => DEFAULT_PROFILE
  }

  // ---------- The profile table ----------

  ghost predicate NoRepeats(ids: seq<string>) {
    forall i, j {:trigger ids[i], ids[j]} :: 0 <= i < j < |ids| ==> ids[i] != ids[j]
  }

  lemma IdAt(k: nat)
    requires k < |PROFILES|
    ensures |PROFILES[k].id| == 3 && PROFILES[k].id[2] == '0' + k as char
    ensures IsFragmenting(PROFILES[k]) <==> k > 0
  {}

  /** An id names one profile. */
  lemma IdsDistinct(i: nat, j: nat)
    requires i < |PROFILES| && j < |PROFILES| && PROFILES[i].id == PROFILES[j].id
    ensures i == j
  {
    IdAt(i);
    IdAt(j);
  }

  lemma {:induction false} PoolFrom(k: nat)
    requires 1 <= k <= |PROFILES|
    ensures |FragmentingIds(PROFILES[k..])| == |PROFILES| - k
    ensures forall i {:trigger FragmentingIds(PROFILES[k..])[i]} :: 0 <= i < |PROFILES| - k ==>
      FragmentingIds(PROFILES[k..])[i] == PROFILES[k + i].id
    decreases |PROFILES| - k
  {
    if k < |PROFILES| {
      PoolFrom(k + 1);
      IdAt(k);
      assert PROFILES[k..][1..] == PROFILES[k + 1..] && PROFILES[k..][0] == PROFILES[k];
    }
  }

  /** The pool is every profile but passthrough. */
  lemma PoolIs()
    ensures |FragmentingIds(PROFILES)| == 7 && NoRepeats(FragmentingIds(PROFILES))
    ensures forall i {:trigger FragmentingIds(PROFILES)[i]} :: 0 <= i < 7 ==>
      FragmentingIds(PROFILES)[i] == PROFILES[i + 1].id
  {
    IdAt(0);
    PoolFrom(1);
    var pool := FragmentingIds(PROFILES);
    assert pool == FragmentingIds(PROFILES[1..]);
    forall i, j | 0 <= i < j < |pool|
      ensures pool[i] != pool[j]
    {
      if pool[i] == pool[j] {
        IdsDistinct(i + 1, j + 1);
      }
    }
  }

  lemma InPool(id: string)
    ensures id in FragmentingIds(PROFILES) <==>
      exists k {:trigger PROFILES[k]} :: 0 <= k < |PROFILES| && PROFILES[k].id == id && IsFragmenting(PROFILES[k])
  {
    PoolIs();
    if k :| 0 <= k < |PROFILES| && PROFILES[k].id == id && IsFragmenting(PROFILES[k]) {
      IdAt(k);
      assert FragmentingIds(PROFILES)[k - 1] == id;
    }
    if id in FragmentingIds(PROFILES) {
      var i :| 0 <= i < 7 && FragmentingIds(PROFILES)[i] == id;
      IdAt(i + 1);
    }
  }

  // ---------- The profiles in rotation ----------

  lemma {:induction false} UnstruckMembers(ids: seq<string>, strikes: map<string, nat>, threshold: nat)
    requires NoRepeats(ids)
    ensures NoRepeats(Unstruck(ids, strikes, threshold))
    ensures forall id :: id in Unstruck(ids, strikes, threshold) <==> id in ids && StrikesOf(strikes, id) < threshold
  {
    if ids != [] {
      var rest := ids[1..];
      assert forall i {:trigger rest[i]} :: 0 <= i < |rest| ==> rest[i] == ids[i + 1];
      UnstruckMembers(rest, strikes, threshold);
      assert forall id :: id in ids <==> id == ids[0] || id in rest;
      assert ids[0] !in rest;
    }
  }

  /**
   The rotation: without repeats, never passthrough, and either exactly the profiles
   below the threshold or, when fewer than the floor are left, the whole pool.
   */
  lemma RotationIs(strikes: map<string, nat>, threshold: nat, floor: nat)
    ensures var ids := AvailableIds(strikes, threshold, floor);
            && NoRepeats(ids) && |ids| >= Min(floor, 7)
            && (forall id :: id in ids ==> id in FragmentingIds(PROFILES))
            && (|Unstruck(FragmentingIds(PROFILES), strikes, threshold)| >= floor ==>
                  forall id :: id in ids <==> id in FragmentingIds(PROFILES) && StrikesOf(strikes, id) < threshold)
            && (|Unstruck(FragmentingIds(PROFILES), strikes, threshold)| < floor ==> ids == FragmentingIds(PROFILES))
  {
    PoolIs();
    UnstruckMembers(FragmentingIds(PROFILES), strikes, threshold);
  }

  lemma {:induction false} FirstAllowedFound(ps: seq<Profile>, allowed: set<string>, k: nat)
    requires k < |ps| && ps[k].id in allowed
    ensures FirstAllowed(ps, allowed).Some? && FirstAllowed(ps, allowed).value in ps
    ensures FirstAllowed(ps, allowed).value.id in allowed
  {
    if ps[0].id !in allowed {
      FirstAllowedFound(ps[1..], allowed, k - 1);
    }
  }

  lemma TwoDistinct(ids: seq<string>, members: set<string>)
    requires NoRepeats(ids) && |ids| >= 2 && forall id :: id in ids ==> id in members
    ensures |members| >= 2
  {
    assert ids[0] != ids[1];
    SubsetSize({ids[0], ids[1]}, members);
  }

  /** At least two profiles are always in rotation, none of them passthrough. */
  lemma AllowedIs(strikes: map<string, nat>)
    ensures |Allowed(strikes)| >= 2
    ensures forall id :: id in Allowed(strikes) ==>
      exists k {:trigger PROFILES[k]} :: 0 <= k < |PROFILES| && PROFILES[k].id == id && IsFragmenting(PROFILES[k])
  {
    RotationIs(strikes, STRIKE_THRESHOLD, FLOOR);
    TwoDistinct(AvailableIds(strikes, STRIKE_THRESHOLD, FLOOR), Allowed(strikes));
    forall id | id in Allowed(strikes)
      ensures exists k {:trigger PROFILES[k]} :: 0 <= k < |PROFILES| && PROFILES[k].id == id && IsFragmenting(PROFILES[k])
    {
      InPool(id);
    }
  }

  lemma PreferredInTable(last: nat, allowed: set<string>, k: nat) returns (i: nat)
    requires k < |PROFILES| && PROFILES[k].id in allowed
    ensures i < |PROFILES| && PROFILES[i] == Preferred(last, allowed) && PROFILES[i].id in allowed
  {
    FirstAllowedFound(PROFILES, allowed, k);
    var found := FirstAllowed(PROFILES, allowed).value;
    if Remembered(last).id in allowed {
      i := if last < |PROFILES| && IsFragmenting(PROFILES[last]) then last else 5;
    } else if DEFAULT_PROFILE.id in allowed {
      i := 5;
    } else {
      i :| 0 <= i < |PROFILES| && PROFILES[i] == found;
    }
  }

  lemma AllowedFragments(strikes: map<string, nat>, i: nat)
    requires i < |PROFILES| && PROFILES[i].id in Allowed(strikes)
    ensures IsFragmenting(PROFILES[i])
  {
    AllowedIs(strikes);
    var j :| 0 <= j < |PROFILES| && PROFILES[j].id == PROFILES[i].id && IsFragmenting(PROFILES[j]);
    IdsDistinct(i, j);
  }

  lemma SomeAllowed(strikes: map<string, nat>) returns (k: nat)
    ensures k < |PROFILES| && PROFILES[k].id in Allowed(strikes)
  {
    AllowedIs(strikes);
    assert Allowed(strikes) != {};
    var id :| id in Allowed(strikes);
    k :| 0 <= k < |PROFILES| && PROFILES[k].id == id;
  }

  /** The remembered winner comes first, then p05, then the first of the table that is in rotation. */
  ghost predicate FirstChoice(i: nat, last: nat, allowed: set<string>)
    requires i < |PROFILES|
  {
    if 1 <= last < 8 && PROFILES[last].id in allowed then i == last
    else if PROFILES[5].id in allowed then i == 5
    else PROFILES[i].id in allowed && forall j {:trigger PROFILES[j]} :: 0 <= j < i ==> PROFILES[j].id !in allowed
  }

  lemma {:induction false} FirstAllowedLeast(ps: seq<Profile>, allowed: set<string>, k: nat) returns (i: nat)
    requires k < |ps| && ps[k].id in allowed
    ensures i < |ps| && FirstAllowed(ps, allowed) == Some(ps[i]) && ps[i].id in allowed
    ensures forall j {:trigger ps[j]} :: 0 <= j < i ==> ps[j].id !in allowed
  {
    if ps[0].id in allowed {
      return 0;
    }
    var rest := FirstAllowedLeast(ps[1..], allowed, k - 1);
    i := rest + 1;
    assert forall j {:trigger ps[j]} :: 0 < j < |ps| ==> ps[j] == ps[1..][j - 1];
  }

  lemma RememberedIs(last: nat)
    ensures Remembered(last) == if 1 <= last < 8 then PROFILES[last] else PROFILES[5]
  {
    if last < |PROFILES| {
      IdAt(last);
    }
  }

  /** For any remembered index and any strikes, which profile is tried first. */
  lemma PreferredIs(last: nat, strikes: map<string, nat>) returns (i: nat)
    ensures i < |PROFILES| && PROFILES[i] == Preferred(last, Allowed(strikes))
    ensures FirstChoice(i, last, Allowed(strikes))
  {
    var allowed := Allowed(strikes);
    RememberedIs(last);
    var k := SomeAllowed(strikes);
    var least := FirstAllowedLeast(PROFILES, allowed, k);
    if 1 <= last < 8 && PROFILES[last].id in allowed {
      i := last;
    } else if PROFILES[5].id in allowed {
      i := 5;
    } else {
      i := least;
    }
  }

  /** Whatever index is remembered, the profile tried first is in rotation and does fragment. */
  lemma PreferredIsAllowed(last: nat, strikes: map<string, nat>) returns (i: nat)
    ensures i < |PROFILES| && PROFILES[i] == Preferred(last, Allowed(strikes))
    ensures PROFILES[i].id in Allowed(strikes) && IsFragmenting(PROFILES[i])
  {
    var k := SomeAllowed(strikes);
    i := PreferredInTable(last, Allowed(strikes), k);
    AllowedFragments(strikes, i);
  }

  // ---------- One connection ----------

  /** The id of one of the first k profiles. */
  ghost predicate Seen(id: string, k: nat)
    requires k <= |PROFILES|
  {
    exists j {:trigger PROFILES[j]} :: 0 <= j < k && PROFILES[j].id == id
  }

  lemma SeenNext(id: string, k: nat)
    requires k < |PROFILES|
    ensures Seen(id, k + 1) <==> Seen(id, k) || id == PROFILES[k].id
    ensures id == PROFILES[k].id ==> !Seen(id, k)
  {
    if j :| 0 <= j < k && PROFILES[j].id == PROFILES[k].id {
      IdsDistinct(j, k);
    }
  }

  /** The attempts among the first k profiles, and the preferred one before them all. */
  ghost predicate AttemptsUpTo(attempted: seq<string>, preferred: string, allowed: set<string>, k: nat)
    requires k <= |PROFILES|
  {
    && NoRepeats(attempted) && |attempted| > 0 && attempted[0] == preferred
    && forall id {:trigger id in attempted} {:trigger Seen(id, k)} ::
         id in attempted <==> id == preferred || (id in allowed && Seen(id, k))
  }

  lemma AttemptsGrow(attempted: seq<string>, preferred: string, allowed: set<string>, k: nat)
    requires k < |PROFILES| && AttemptsUpTo(attempted, preferred, allowed, k)
    ensures AttemptsUpTo(
              if PROFILES[k].id == preferred || PROFILES[k].id !in allowed then attempted
              else attempted + [PROFILES[k].id],
              preferred, allowed, k + 1)
  {
    var next := PROFILES[k].id;
    SeenNext(next, k);
    var after := if next == preferred || next !in allowed then attempted else attempted + [next];
    assert next != preferred && next in allowed ==> next !in attempted;
    forall id
      ensures id in after <==> id == preferred || (id in allowed && Seen(id, k + 1))
    {
      SeenNext(id, k);
      assert id in attempted <==> id == preferred || (id in allowed && Seen(id, k));
    }
  }

  /** The fast-path profile, then every other profile in rotation, in table order. */
  method AttemptList(preferred: Profile, strikes: map<string, nat>) returns (attempted: seq<string>)
    requires preferred in PROFILES && preferred.id in Allowed(strikes)
    ensures NoRepeats(attempted) && |attempted| > 0 && attempted[0] == preferred.id
    ensures forall id :: id in attempted <==> id in Allowed(strikes)
  {
    var allowed := Allowed(strikes);
    attempted := [preferred.id];
    for k := 0 to |PROFILES|
      invariant AttemptsUpTo(attempted, preferred.id, allowed, k)
    {
      var p := PROFILES[k];
      AttemptsGrow(attempted, preferred.id, allowed, k);
      if p.id in allowed {
        AllowedFragments(strikes, k);
      }
      if p.id == preferred.id || !IsFragmenting(p) || p.id !in allowed {
        continue;
      }
      attempted := attempted + [p.id];
    }
    AllSeen(strikes);
  }

  lemma AllSeen(strikes: map<string, nat>)
    ensures forall id :: id in Allowed(strikes) ==> Seen(id, |PROFILES|)
  {
    AllowedIs(strikes);
    forall id | id in Allowed(strikes)
      ensures Seen(id, |PROFILES|)
    {
      var k :| 0 <= k < |PROFILES| && PROFILES[k].id == id && IsFragmenting(PROFILES[k]);
    }
  }

  /** `local_bypass_remember`: the index of a fragmenting winner, found by its id. */
  method Remember(last: nat, p: Profile) returns (next: nat)
    requires p in PROFILES
    ensures !IsFragmenting(p) ==> next == last
    ensures IsFragmenting(p) ==> next < |PROFILES| && PROFILES[next] == p && Remembered(next) == p
  {
    if !IsFragmenting(p) {
      return last;
    }
    ghost var at :| 0 <= at < |PROFILES| && PROFILES[at] == p;
    next := 0;
    while PROFILES[next].id != p.id
      invariant 0 <= next <= at
      decreases |PROFILES| - next
    {
      next := next + 1;
    }
    IdsDistinct(next, at);
  }

  /** A report that another connection files meanwhile. */
  datatype Outside = Outside(key: string, report: Report, evictAt: int)

  /**
   What the network makes of one connection, the clock when it is asked, and what
   others report between its breaker check and its snapshot of the strikes, and
   between that snapshot and its own report.
   */
  datatype Dials = Dials(now: int, before: seq<Outside>, fastPathWins: bool, raceWinner: Option<nat>,
                         during: seq<Outside>, evictAt: int, at: int)

  datatype Outcome = RawFallback | FastPath(profile: Profile) | RaceWon(first: Profile, profile: Profile) | AllFailed(attempted: seq<string>)

  /** The report that each outcome files about the host. */
  ghost function ReportOf(o: Outcome, at: int): Report
    requires !o.RawFallback?
  {
    match o
    case FastPath(p) => Report([], Some(p.id), at)
    case RaceWon(first, p) => Report([first.id], Some(p.id), at)
    case AllFailed(attempted) => Report(attempted, None, at)
  }

  /** The outcome respects the rotation for this host. */
  ghost predicate InRotation(o: Outcome, last: nat, strikes: map<string, nat>) {
    var allowed := Allowed(strikes);
    match o
    case RawFallback => true
    case FastPath(p) => p == Preferred(last, allowed) && p in PROFILES && p.id in allowed && IsFragmenting(p)
    case RaceWon(first, p) =>
      && first == Preferred(last, allowed) && p in PROFILES && p.id in allowed && IsFragmenting(p) && p.id != first.id
    case AllFailed(attempted) =>
      && attempted != [] && attempted[0] == Preferred(last, allowed).id
      && NoRepeats(attempted) && forall id :: id in attempted <==> id in allowed
  }

  /** The profile that was dialled first. */
  function FirstOf(o: Outcome): string
    requires !o.RawFallback? && (o.AllFailed? ==> o.attempted != [])
  {
    match o
    case FastPath(p) => p.id
    case RaceWon(first, _) => first.id
    case AllFailed(attempted) => attempted[0]
  }

  function ProfileNamed(ps: seq<Profile>, id: string): Option<Profile> {
    if ps == [] then None else if ps[0].id == id then Some(ps[0]) else ProfileNamed(ps[1..], id)
  }

  lemma {:induction false} NamedProfile(ps: seq<Profile>, k: nat)
    requires k < |ps|
    ensures var found := ProfileNamed(ps, ps[k].id); found.Some? && found.value in ps && found.value.id == ps[k].id
  {
    if ps[0].id != ps[k].id {
      NamedProfile(ps[1..], k - 1);
    }
  }

  /** The profile that wins the race: one of those attempted after the fast path. */
  method RaceWinner(attempted: seq<string>, strikes: map<string, nat>, k: nat) returns (p: Profile)
    requires NoRepeats(attempted) && 0 < k < |attempted|
    requires forall id :: id in attempted <==> id in Allowed(strikes)
    ensures p in PROFILES && p.id == attempted[k] && p.id in Allowed(strikes) && IsFragmenting(p) && p.id != attempted[0]
  {
    assert attempted[k] in attempted;
    AllSeen(strikes);
    assert Seen(attempted[k], |PROFILES|);
    ghost var j :| 0 <= j < |PROFILES| && PROFILES[j].id == attempted[k];
    NamedProfile(PROFILES, j);
    p := ProfileNamed(PROFILES, attempted[k]).value;
    ghost var i :| 0 <= i < |PROFILES| && PROFILES[i] == p;
    AllowedFragments(strikes, i);
  }

  ghost function LogOf(others: seq<Outside>): seq<Logged> {
    if others == [] then []
    else
      var last := others[|others| - 1];
      LogOf(others[..|others| - 1]) + if Effective(last.report) then [Logged(last.key, last.report)] else []
  }

  /** Other connections file their reports. */
  method NoteAll(breaker: HostBreaker, others: seq<Outside>)
    requires breaker.Valid()
    modifies breaker
    ensures breaker.Valid() && breaker.log == old(breaker.log) + LogOf(others)
    ensures others == [] ==> breaker.entries == old(breaker.entries)
  {
    for k := 0 to |others|
      invariant breaker.Valid() && breaker.log == old(breaker.log) + LogOf(others[..k])
      invariant k == 0 ==> breaker.entries == old(breaker.entries)
    {
      var o := others[k];
      assert others[..k + 1][..k] == others[..k];
      breaker.NoteDialOutcome(o.key, o.report.failed, o.report.winner, o.evictAt, o.report.at);
    }
    assert others[..|others|] == others;
  }

  lemma {:induction false} ListSize(ids: seq<string>, members: set<string>)
    requires NoRepeats(ids) && forall id :: id in ids <==> id in members
    ensures |ids| == |members|
  {
    if ids == [] {
      assert members == {};
    } else {
      var n := |ids| - 1;
      var front, last := ids[..n], ids[n];
      assert last !in front;
      assert ids == front + [last];
      ListSize(front, members - {last});
      assert members == (members - {last}) + {last};
    }
  }

  /** The dials and the race: who wins, among the profiles in rotation at the snapshot. */
  method RunDials(last: nat, strikes: map<string, nat>, dials: Dials) returns (o: Outcome)
    ensures !o.RawFallback? && InRotation(o, last, strikes)
    ensures o.FastPath? <==> dials.fastPathWins
    ensures o.RaceWon? <==>
      !dials.fastPathWins && dials.raceWinner.Some? && 0 < dials.raceWinner.value < |Allowed(strikes)|
  {
    var preferred := Preferred(last, Allowed(strikes));
    ghost var at := PreferredIsAllowed(last, strikes);
    if dials.fastPathWins {
      return FastPath(preferred);
    }
    var attempted := AttemptList(preferred, strikes);
    ListSize(attempted, Allowed(strikes));
    if dials.raceWinner.Some? && 0 < dials.raceWinner.value < |attempted| {
      var win := RaceWinner(attempted, strikes, dials.raceWinner.value);
      return RaceWon(preferred, win);
    }
    return AllFailed(attempted);
  }

  /** File the connection's own report, on whatever entry the host has by then. */
  method FileReport(breaker: HostBreaker, key: string, o: Outcome, evictAt: int, at: int)
    requires breaker.Valid() && !o.RawFallback?
    requires o.RaceWon? ==> o.profile.id != o.first.id
    requires o.AllFailed? ==> o.attempted != []
    modifies breaker
    ensures breaker.Valid() && breaker.log == old(breaker.log) + [Logged(key, ReportOf(o, at))]
    ensures Lookup(breaker.entries, key) == Apply(old(Lookup(breaker.entries, key)), ReportOf(o, at))
  {
    match o {
      case FastPath(p) => breaker.NoteDialOutcome(key, [], Some(p.id), evictAt, at);
      case RaceWon(first, p) =>
        var failed := if first.id == p.id then [] else [first.id];
        breaker.NoteDialOutcome(key, failed, Some(p.id), evictAt, at);
      case AllFailed(attempted) => breaker.NoteDialOutcome(key, attempted, None, evictAt, at);
    }
  }

  /**
   The choices of `try_local_bypass_tunnel`. `raceWinner` names the attempt that
   wins the race, if any; an index that was not raced counts as no winner. `strikes`
   is the snapshot the rotation is taken from, `found` the entry that the report
   meets; other connections may have changed it in between. `stored` is the index
   written to the shared last winner, if any.
   */
  method TryLocalBypass(breaker: HostBreaker, key: string, last: nat, dials: Dials)
    returns (o: Outcome, stored: Option<nat>, ghost strikes: map<string, nat>, ghost found: Entry)
    requires breaker.Valid()
    modifies breaker
    ensures breaker.Valid()
    ensures o.RawFallback? <==>
      && Losses(old(breaker.Memory(key))) >= THRESHOLD
      && dials.now < old(breaker.Memory(key))[|old(breaker.Memory(key))| - 1].at + COOLDOWN
    ensures o.RawFallback? ==> breaker.entries == old(breaker.entries) && breaker.log == old(breaker.log)
    ensures !o.RawFallback? ==>
      && InRotation(o, last, strikes)
      && breaker.log == old(breaker.log) + LogOf(dials.before) + LogOf(dials.during) + [Logged(key, ReportOf(o, dials.at))]
      && Lookup(breaker.entries, key) == Apply(found, ReportOf(o, dials.at))
    ensures dials.before == [] ==> strikes == old(Lookup(breaker.entries, key)).strikes
    ensures dials.before == [] && dials.during == [] ==> found == old(Lookup(breaker.entries, key))
    ensures if o.FastPath? || o.RaceWon?
            then stored.Some? && stored.value < |PROFILES| && PROFILES[stored.value] == o.profile && IsFragmenting(o.profile)
            else stored.None?
  {
    stored := None;
    found := Lookup(breaker.entries, key);
    strikes := found.strikes;
    var tripped := breaker.Tripped(key, dials.now);
    if tripped {
      return RawFallback, stored, strikes, found;
    }
    NoteAll(breaker, dials.before);
    var snapshot := Lookup(breaker.entries, key).strikes;
    strikes := snapshot;
    o := RunDials(last, snapshot, dials);
    if o.FastPath? || o.RaceWon? {
      var next := Remember(last, o.profile);
      stored := Some(next);
    }
    NoteAll(breaker, dials.during);
    found := Lookup(breaker.entries, key);
    FileReport(breaker, key, o, dials.evictAt, dials.at);
  }

  /** In every outcome the profile dialled first is the one the rule names. */
  lemma FirstTried(o: Outcome, last: nat, strikes: map<string, nat>) returns (i: nat)
    requires !o.RawFallback? && InRotation(o, last, strikes)
    ensures i < |PROFILES| && PROFILES[i].id == FirstOf(o) && FirstChoice(i, last, Allowed(strikes))
  {
    i := PreferredIs(last, strikes);
  }

  lemma WinnerComesFirst(winner: Profile, stored: nat, o: Outcome, strikes: map<string, nat>)
    requires stored < |PROFILES| && PROFILES[stored] == winner && IsFragmenting(winner)
    requires !o.RawFallback? && InRotation(o, stored, strikes) && winner.id in Allowed(strikes)
    ensures FirstOf(o) == winner.id
  {
    IdAt(stored);
    var i := FirstTried(o, stored, strikes);
  }

  /** Two connections in a row: the winner of the first is the first attempt of the second, wherever it is in rotation. */
  method TwoConnections(breaker: HostBreaker, key: string, last: nat, dials: Dials, key': string, dials': Dials)
    returns (o: Outcome, o': Outcome, ghost strikes': map<string, nat>)
    requires breaker.Valid()
    modifies breaker
    ensures breaker.Valid()
    ensures (o.FastPath? || o.RaceWon?) && !o'.RawFallback? && o.profile.id in Allowed(strikes') ==>
      (o'.AllFailed? ==> o'.attempted != []) && FirstOf(o') == o.profile.id
    ensures !o'.RawFallback? ==> forall id :: id in Allowed(strikes') ==> id in FragmentingIds(PROFILES)
  {
    var stored, stored';
    ghost var strikes, found, found';
    o, stored, strikes, found := TryLocalBypass(breaker, key, last, dials);
    var next := if stored.Some? then stored.value else last;
    o', stored', strikes', found' := TryLocalBypass(breaker, key', next, dials');
    RotationIs(strikes', STRIKE_THRESHOLD, FLOOR);
    if (o.FastPath? || o.RaceWon?) && !o'.RawFallback? && o.profile.id in Allowed(strikes') {
      WinnerComesFirst(o.profile, next, o', strikes');
    }
  }

  // ---------- What the reports add up to ----------

  lemma {:induction false} OnceEach(ids: seq<string>, id: string)
    requires NoRepeats(ids)
    ensures multiset(ids)[id] == if id in ids then 1 else 0
  {
    if ids != [] {
      var n := |ids| - 1;
      OnceEach(ids[..n], id);
      assert ids == ids[..n] + [ids[n]];
      assert ids[n] !in ids[..n];
    }
  }

  /** A report of a total failure of every profile in rotation for these strikes. */
  ghost predicate TotalFailure(r: Report, strikes: map<string, nat>) {
    r.winner.None? && r.failed != [] && NoRepeats(r.failed) && forall id :: id in r.failed <==> id in Allowed(strikes)
  }

  lemma AllFailedIsTotal(o: Outcome, last: nat, strikes: map<string, nat>, at: int)
    requires o.AllFailed? && InRotation(o, last, strikes)
    ensures TotalFailure(ReportOf(o, at), strikes)
  {}

  /**
   After a failed race every profile that was in rotation at the snapshot has exactly
   one more strike than the host's entry had when the report met it; no other has.
   */
  lemma OneStrikeEach(e: Entry, strikes: map<string, nat>, r: Report, id: string)
    requires TotalFailure(r, strikes) && StrikesOf(e.strikes, id) <= U32_MAX
    ensures StrikesOf(Apply(e, r).strikes, id)
         == if id in Allowed(strikes) then Saturate(StrikesOf(e.strikes, id) + 1) else StrikesOf(e.strikes, id)
  {
    StruckCount(e.strikes, r.failed, None, id);
    OnceEach(r.failed, id);
  }

  /** A first attempt that wins clears its own strikes and the host's losing streak, and nothing else. */
  lemma FastPathClears(e: Entry, p: Profile, at: int, id: string)
    ensures var after := Apply(e, ReportOf(FastPath(p), at));
            && StrikesOf(after.strikes, id) == (if id == p.id then 0 else StrikesOf(e.strikes, id))
            && after.failures == 0 && after.until == None
  {
    var r := ReportOf(FastPath(p), at);
    assert r.failed == [] && r.winner == Some(p.id);
    assert Struck(e.strikes, [], r.winner) == e.strikes;
  }

  /** A race won after a failed first attempt strikes that attempt alone and clears the winner. */
  lemma PartialSuccess(e: Entry, strikes: map<string, nat>, o: Outcome, last: nat, at: int, id: string)
    requires o.RaceWon? && InRotation(o, last, strikes) && StrikesOf(e.strikes, id) <= U32_MAX
    ensures StrikesOf(Apply(e, ReportOf(o, at)).strikes, id)
         == if id == o.profile.id then 0
            else if id == o.first.id then Saturate(StrikesOf(e.strikes, id) + 1)
            else StrikesOf(e.strikes, id)
  {
    var first, winner := o.first.id, o.profile.id;
    StruckCount(e.strikes, [first], Some(winner), id);
    assert multiset([first])[id] == if id == first then 1 else 0;
    var struck := Struck(e.strikes, [first], Some(winner));
    assert id != winner ==> StrikesOf(struck - {winner}, id) == StrikesOf(struck, id);
  }

  /** All profiles of the pool have the same number of strikes. */
  ghost predicate Even(strikes: map<string, nat>, n: nat) {
    forall id {:trigger StrikesOf(strikes, id)} :: id in FragmentingIds(PROFILES) ==> StrikesOf(strikes, id) == n
  }

  /**
   A host that never works keeps its whole rotation: with equal strikes the pool is
   either untouched or forgiven at once, and another total failure keeps equal the
   strikes it meets, whatever others reported since the snapshot.
   */
  lemma DeadHostKeepsPool(e: Entry, m: nat, strikes: map<string, nat>, n: nat, r: Report)
    requires Even(strikes, n) && TotalFailure(r, strikes)
    requires Even(e.strikes, m) && m <= U32_MAX
    ensures AvailableIds(strikes, STRIKE_THRESHOLD, FLOOR) == FragmentingIds(PROFILES)
    ensures Even(Apply(e, r).strikes, Saturate(m + 1)) && Apply(e, r).failures == Saturate(e.failures + 1)
  {
    EvenPool(strikes, n);
    var after := Apply(e, r).strikes;
    forall id | id in FragmentingIds(PROFILES)
      ensures StrikesOf(after, id) == Saturate(m + 1)
    {
      assert StrikesOf(e.strikes, id) == m;
      OneStrikeEach(e, strikes, r, id);
    }
  }

  /**
   The reports on a host that never works: each a total failure of the rotation that
   some earlier state of the host's entry gave, since others may report between a
   connection's snapshot and its own report.
   */
  ghost predicate NeverWorks(h: seq<Report>, snapshots: seq<nat>) {
    && |snapshots| == |h|
    && forall k {:trigger h[k]} :: 0 <= k < |h| ==>
         snapshots[k] <= k && TotalFailure(h[k], Replayed(h[..snapshots[k]]).strikes)
  }

  /** After any number of total failures all profiles have equal strikes and the whole pool is in rotation. */
  lemma {:induction false} DeadHostRun(h: seq<Report>, snapshots: seq<nat>, k: nat)
    requires NeverWorks(h, snapshots) && k <= |h|
    ensures Even(Replayed(h[..k]).strikes, Saturate(k))
    ensures AvailableIds(Replayed(h[..k]).strikes, STRIKE_THRESHOLD, FLOOR) == FragmentingIds(PROFILES)
    ensures Replayed(h[..k]).failures == Saturate(k)
  {
    if k > 0 {
      var e, r, snap := Replayed(h[..k - 1]), h[k - 1], snapshots[k - 1];
      DeadHostRun(h, snapshots, k - 1);
      DeadHostRun(h, snapshots, snap);
      assert h[..k][..k - 1] == h[..k - 1];
      DeadHostKeepsPool(e, Saturate(k - 1), Replayed(h[..snap]).strikes, Saturate(snap), r);
    } else {
      assert h[..0] == [];
    }
    EvenPool(Replayed(h[..k]).strikes, Saturate(k));
  }

  lemma EvenPool(strikes: map<string, nat>, n: nat)
    requires Even(strikes, n)
    ensures AvailableIds(strikes, STRIKE_THRESHOLD, FLOOR) == FragmentingIds(PROFILES)
  {
    EvenRotation(FragmentingIds(PROFILES), strikes, n);
  }

  lemma {:induction false} EvenRotation(ids: seq<string>, strikes: map<string, nat>, n: nat)
    requires forall id {:trigger StrikesOf(strikes, id)} :: id in ids ==> StrikesOf(strikes, id) == n
    ensures Unstruck(ids, strikes, STRIKE_THRESHOLD) == if n < STRIKE_THRESHOLD then ids else []
  {
    if ids != [] {
      assert StrikesOf(strikes, ids[0]) == n;
      EvenRotation(ids[1..], strikes, n);
    }
  }
}
