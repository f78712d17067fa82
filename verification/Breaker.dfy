/**
 The per-host memory of dial outcomes: strikes per profile, a circuit breaker with
 a cooldown, and a capacity of 256 hosts. Every entry is shown to be a function of
 the reports on its own host.
 */
module Breaker {
  import opened Prelude

  const THRESHOLD := 3
  const COOLDOWN := 30_000
  const MAX_ENTRIES := 256
  const U32_MAX := 0xFFFF_FFFF

  /** One call of the outcome recorder: who failed, who won, and when. */
  datatype Report = Report(failed: seq<string>, winner: Option<string>, at: int)

  datatype Entry = Entry(failures: nat, until: Option<int>, strikes: map<string, nat>)

  const BLANK := Entry(0, None, map[])

  function Saturate(n: nat): nat { Min(n, U32_MAX) }

  function StrikesOf(strikes: map<string, nat>, pid: string): nat { if pid in strikes then strikes[pid] else 0 }

  /** A report with neither a failure nor a winner is dropped at the door. */
  predicate Effective(r: Report) { r.failed != [] || r.winner.Some? }

  /** One strike for each listed failure but the winner's. */
  function Struck(strikes: map<string, nat>, failed: seq<string>, winner: Option<string>): map<string, nat> {
    if failed == [] then strikes
    else
      var front, pid := failed[..|failed| - 1], failed[|failed| - 1];
      var soFar := Struck(strikes, front, winner);
      if winner == Some(pid) then soFar else soFar[pid := Saturate(StrikesOf(soFar, pid) + 1)]
  }

  /** What one report makes of a host's entry. */
  function Apply(e: Entry, r: Report): Entry {
    var struck := Struck(e.strikes, r.failed, r.winner);
    match r.winner
    case Some(pid) => Entry(0, None, struck - {pid})
    case None =>
      var failures := Saturate(e.failures + 1);
      Entry(failures, if failures >= THRESHOLD then Some(r.at + COOLDOWN) else e.until, struck)
  }

  /** A host's entry after its reports, oldest first. */
  function Replayed(h: seq<Report>): Entry {
    if h == [] then BLANK else Apply(Replayed(h[..|h| - 1]), h[|h| - 1])
  }

  // ---------- The meaning of an entry ----------

  /** A win of the given profile, or of any profile. */
  predicate Wins(r: Report, who: Option<string>) { r.winner.Some? && (who.None? || r.winner == who) }

  /** The reports after the last win. */
  ghost function Since(h: seq<Report>, who: Option<string>): seq<Report> {
    if h == [] || Wins(h[|h| - 1], who) then []
    else Since(h[..|h| - 1], who) + [h[|h| - 1]]
  }

  /** They are the longest run of reports at the end of the history without such a win. */
  lemma {:induction false} SinceIsSuffix(h: seq<Report>, who: Option<string>) returns (k: nat)
    ensures k <= |h| && h[k..] == Since(h, who)
    ensures forall j {:trigger h[j]} :: k <= j < |h| ==> !Wins(h[j], who)
    ensures k > 0 ==> Wins(h[k - 1], who)
  {
    if h == [] || Wins(h[|h| - 1], who) {
      return |h|;
    }
    var front := h[..|h| - 1];
    k := SinceIsSuffix(front, who);
    SuffixSnoc(h, k);
    assert forall j {:trigger h[j]} :: 0 <= j < |front| ==> h[j] == front[j];
  }

  lemma SuffixSnoc(h: seq<Report>, k: nat)
    requires k < |h|
    ensures h[k..] == h[..|h| - 1][k..] + [h[|h| - 1]]
  {}

  /** How often a profile is listed as failed. */
  ghost function TimesFailed(h: seq<Report>, pid: string): nat {
    if h == [] then 0 else TimesFailed(h[..|h| - 1], pid) + multiset(h[|h| - 1].failed)[pid]
  }

  ghost predicate AllEffective(h: seq<Report>) {
    forall k {:trigger h[k]} :: 0 <= k < |h| ==> Effective(h[k])
  }

  /** Total failures since the last success of any profile. */
  ghost function Losses(h: seq<Report>): nat { |Since(h, None)| }

  /** Failures of a profile since its own last win. */
  ghost function FailuresOf(h: seq<Report>, pid: string): nat { TimesFailed(Since(h, Some(pid)), pid) }

  ghost predicate StrikesMean(strikes: map<string, nat>, h: seq<Report>) {
    forall pid {:trigger FailuresOf(h, pid)} ::
      StrikesOf(strikes, pid) == Min(FailuresOf(h, pid), 0xFFFF_FFFF) && (pid in strikes <==> FailuresOf(h, pid) > 0)
  }

  /**
   An entry read off the history: strikes are failures since the profile's own last
   win, the failure count is the losing streak, and the cooldown runs from the last
   loss of a streak of three or more.
   */
  ghost predicate Means(e: Entry, h: seq<Report>) {
    && e.failures == Min(Losses(h), 0xFFFF_FFFF)
    && e.until == (if Losses(h) >= 3 then Some(h[|h| - 1].at + 30_000) else None)
    && StrikesMean(e.strikes, h)
  }

  lemma {:induction false} StruckCount(strikes: map<string, nat>, failed: seq<string>, winner: Option<string>, pid: string)
    ensures winner == Some(pid) ==> StrikesOf(Struck(strikes, failed, winner), pid) == StrikesOf(strikes, pid)
    ensures winner != Some(pid) && StrikesOf(strikes, pid) <= U32_MAX ==>
      StrikesOf(Struck(strikes, failed, winner), pid) == Saturate(StrikesOf(strikes, pid) + multiset(failed)[pid])
    ensures winner != Some(pid) ==>
      (pid in Struck(strikes, failed, winner) <==> pid in strikes || pid in failed)
  {
    if failed != [] {
      var front, last := failed[..|failed| - 1], failed[|failed| - 1];
      assert failed == front + [last];
      StruckCount(strikes, front, winner, pid);
    }
  }

  lemma SinceSnoc(h: seq<Report>, r: Report, who: Option<string>)
    ensures Since(h + [r], who) == if Wins(r, who) then [] else Since(h, who) + [r]
  {
    assert (h + [r])[..|h|] == h;
  }

  lemma FailuresSnoc(h: seq<Report>, r: Report, pid: string)
    ensures FailuresOf(h + [r], pid)
         == if r.winner == Some(pid) then 0 else FailuresOf(h, pid) + multiset(r.failed)[pid]
  {
    SinceSnoc(h, r, Some(pid));
    var s := Since(h, Some(pid));
    assert (s + [r])[..|s|] == s;
  }

  /** One profile's strikes against one host after a report. */
  lemma StrikesStep(e: Entry, h: seq<Report>, r: Report, pid: string)
    requires StrikesMean(e.strikes, h)
    ensures StrikesOf(Apply(e, r).strikes, pid) == Saturate(FailuresOf(h + [r], pid))
    ensures pid in Apply(e, r).strikes <==> FailuresOf(h + [r], pid) > 0
  {
    StruckCount(e.strikes, r.failed, r.winner, pid);
    FailuresSnoc(h, r, pid);
    assert StrikesOf(e.strikes, pid) == Saturate(FailuresOf(h, pid));
    assert pid in r.failed <==> multiset(r.failed)[pid] > 0;
  }

  lemma MeansStep(e: Entry, h: seq<Report>, r: Report)
    requires Means(e, h) && Effective(r)
    ensures Means(Apply(e, r), h + [r])
  {
    SinceSnoc(h, r, None);
    forall pid
      ensures StrikesOf(Apply(e, r).strikes, pid) == Saturate(FailuresOf(h + [r], pid))
      ensures pid in Apply(e, r).strikes <==> FailuresOf(h + [r], pid) > 0
    {
      StrikesStep(e, h, r, pid);
    }
  }

  /** A host's entry says exactly what its reports say. */
  lemma {:induction false} ReplayedMeans(h: seq<Report>)
    requires AllEffective(h)
    ensures Means(Replayed(h), h)
  {
    if h == [] {
      assert forall pid :: FailuresOf(h, pid) == 0;
    } else {
      var front, r := h[..|h| - 1], h[|h| - 1];
      ReplayedMeans(front);
      MeansStep(Replayed(front), front, r);
      assert front + [r] == h;
    }
  }

  // ---------- The map of hosts ----------

  datatype Logged = Logged(key: string, report: Report)

  ghost function KeysOf(log: seq<Logged>): set<string> {
    if log == [] then {} else KeysOf(log[..|log| - 1]) + {log[|log| - 1].key}
  }

  /** The reports on one host. */
  ghost function Own(log: seq<Logged>, key: string): seq<Report> {
    if log == [] then []
    else
      var last := log[|log| - 1];
      Own(log[..|log| - 1], key) + if last.key == key then [last.report] else []
  }

  lemma OwnSnoc(log: seq<Logged>, key: string, r: Report, k: string)
    ensures Own(log + [Logged(key, r)], k) == Own(log, k) + if key == k then [r] else []
    ensures KeysOf(log + [Logged(key, r)]) == KeysOf(log) + {key}
  {
    assert (log + [Logged(key, r)])[..|log|] == log;
  }

  ghost predicate LogEffective(log: seq<Logged>) {
    forall k {:trigger log[k]} :: 0 <= k < |log| ==> Effective(log[k].report)
  }

  lemma {:induction false} OwnEffective(log: seq<Logged>, key: string)
    requires LogEffective(log)
    ensures AllEffective(Own(log, key))
  {
    if log != [] {
      OwnEffective(log[..|log| - 1], key);
    }
  }

  function Lookup(entries: map<string, Entry>, key: string): Entry {
    if key in entries then entries[key] else BLANK
  }

  ghost function Start(forgotten: map<string, nat>, key: string): nat {
    if key in forgotten then forgotten[key] else 0
  }

  /** The map remembers, for this host, its reports from the given one on. */
  ghost predicate Recalls(entries: map<string, Entry>, log: seq<Logged>, key: string, start: nat) {
    && start <= |Own(log, key)|
    && Lookup(entries, key) == Replayed(Own(log, key)[start..])
  }

  /** The whole map is the replay of each host's own reports since it was last forgotten. */
  ghost predicate Agrees(entries: map<string, Entry>, log: seq<Logged>, forgotten: map<string, nat>) {
    && (forall key {:trigger Own(log, key)} :: Recalls(entries, log, key, Start(forgotten, key)))
    && (forall key {:trigger entries[key]} :: key in entries ==> entries[key] != BLANK)
    && entries.Keys <= KeysOf(log)
  }

  lemma AgreesEmpty()
    ensures Agrees(map[], [], map[])
  {
    forall key
      ensures Recalls(map[], [], key, Start(map[], key))
    {
      assert Own([], key)[0..] == [];
    }
  }

  /** Dropping entries forgets those hosts' reports and no others. */
  lemma AgreesAfterDrop(entries: map<string, Entry>, gone: set<string>, log: seq<Logged>, forgotten: map<string, nat>)
    requires Agrees(entries, log, forgotten)
    ensures Agrees(entries - gone, log, forgotten + map k | k in gone :: |Own(log, k)|)
  {
    var after := forgotten + map k | k in gone :: |Own(log, k)|;
    forall key
      ensures Recalls(entries - gone, log, key, Start(after, key))
    {
      assert Recalls(entries, log, key, Start(forgotten, key));
      assert key in gone ==> Own(log, key)[|Own(log, key)|..] == [];
    }
  }

  function Stored(entries: map<string, Entry>, key: string, e: Entry): map<string, Entry> {
    if e == BLANK then entries - {key} else entries[key := e]
  }

  lemma StoredOnly(entries: map<string, Entry>, key: string, e: Entry)
    ensures Lookup(Stored(entries, key, e), key) == e
    ensures Stored(entries, key, e) - {key} == entries - {key}
  {}

  lemma StoredSize(entries: map<string, Entry>, key: string, e: Entry)
    ensures |Stored(entries, key, e)| <= |entries| + if key in entries then 0 else 1
  {
    var after := Stored(entries, key, e);
    if e == BLANK {
      SubsetSize(after.Keys, entries.Keys);
    } else if key in entries {
      assert after.Keys == entries.Keys;
    } else {
      assert after.Keys == entries.Keys + {key};
    }
  }

  lemma AgreesAfterReport(entries: map<string, Entry>, key: string, r: Report, log: seq<Logged>,
                          forgotten: map<string, nat>)
    requires Agrees(entries, log, forgotten)
    ensures Agrees(Stored(entries, key, Apply(Lookup(entries, key), r)), log + [Logged(key, r)], forgotten)
  {
    var log', entries' := log + [Logged(key, r)], Stored(entries, key, Apply(Lookup(entries, key), r));
    OwnSnoc(log, key, r, key);
    forall k
      ensures Recalls(entries', log', k, Start(forgotten, k))
    {
      assert Recalls(entries, log, k, Start(forgotten, k));
      RecallsAfterReport(entries, key, r, log, k, Start(forgotten, k));
    }
  }

  lemma RecallsAfterReport(entries: map<string, Entry>, key: string, r: Report, log: seq<Logged>, k: string, start: nat)
    requires Recalls(entries, log, k, start)
    ensures Recalls(Stored(entries, key, Apply(Lookup(entries, key), r)), log + [Logged(key, r)], k, start)
  {
    OwnSnoc(log, key, r, k);
    StoredElsewhere(entries, key, Apply(Lookup(entries, key), r), k);
    if k == key {
      ReplaySnoc(Own(log, k), start, r);
    } else {
      assert Own(log, k) + [] == Own(log, k);
    }
  }

  lemma StoredElsewhere(entries: map<string, Entry>, key: string, e: Entry, k: string)
    ensures Lookup(Stored(entries, key, e), k) == if k == key then e else Lookup(entries, k)
  {}

  lemma ReplaySnoc(h: seq<Report>, start: nat, r: Report)
    requires start <= |h|
    ensures Replayed((h + [r])[start..]) == Apply(Replayed(h[start..]), r)
  {
    var kept := h[start..];
    assert (h + [r])[start..] == kept + [r];
    assert (kept + [r])[..|kept|] == kept;
  }

  lemma SubsetSize<T>(a: set<T>, b: set<T>)
    requires a <= b
    ensures |a| <= |b|
  {
    assert b == a + (b - a);
  }

  predicate Expired(e: Entry, now: int) { e.until.None? || e.until.value <= now }

  /** The entries still cooling down. */
  function Live(entries: map<string, Entry>, now: int): map<string, Entry> {
    map k | k in entries && !Expired(entries[k], now) :: entries[k]
  }

  /** No entry comes back sooner; one without a cooldown sorts first. */
  ghost predicate Soonest(entries: map<string, Entry>, key: string) {
    key in entries && forall k {:trigger entries[k]} :: k in entries ==> NoLater(entries[key].until, entries[k].until)
  }

  predicate NoLater(a: Option<int>, b: Option<int>) { a.None? || (b.Some? && a.value <= b.value) }

  /** Walks the map in any order. */
  method SoonestKey(entries: map<string, Entry>) returns (soonest: string)
    requires entries != map[]
    ensures Soonest(entries, soonest)
  {
    soonest :| soonest in entries;
    var rest := entries.Keys - {soonest};
    while rest != {}
      invariant soonest in entries && rest <= entries.Keys
      invariant forall k {:trigger entries[k]} :: k in entries && k !in rest ==> NoLater(entries[soonest].until, entries[k].until)
      decreases |rest|
    {
      var k :| k in rest;
      if !NoLater(entries[soonest].until, entries[k].until) {
        soonest := k;
      }
      rest := rest - {k};
    }
  }

  /**
   What eviction may leave of a full map: the entries still cooling down, or, when
   all 256 are, all but one that comes back soonest.
   */
  ghost predicate Evicted(before: map<string, Entry>, after: map<string, Entry>, now: int) {
    var live := Live(before, now);
    if |live| < MAX_ENTRIES then after == live
    else exists k {:trigger Soonest(live, k)} :: Soonest(live, k) && after == live - {k}
  }

  /** A host's memory is cut short only when its entry was dropped. */
  ghost predicate ForgetsOnly(before: map<string, Entry>, after: map<string, Entry>,
                              known: map<string, nat>, forgotten: map<string, nat>)
  {
    forall k {:trigger Start(forgotten, k)} ::
      Start(forgotten, k) == Start(known, k) || (k in before && k !in after)
  }

  lemma StoredElsewhereOnly(before: map<string, Entry>, kept: map<string, Entry>, after: map<string, Entry>, key: string,
                            known: map<string, nat>, forgotten: map<string, nat>)
    requires ForgetsOnly(before, kept, known, forgotten) && after - {key} == kept - {key}
    requires key in before ==> forgotten == known
    ensures ForgetsOnly(before, after, known, forgotten)
    ensures key !in kept ==> after - {key} == kept
  {
    forall k | k != key && k !in kept
      ensures k !in after
    {
      assert k in after <==> k in after - {key};
    }
    if key !in kept {
      assert kept - {key} == kept;
    }
  }

  /**
   Eviction drops every host that is not cooling down, whatever strikes it has; one
   that is cooling down goes only from a map full of such hosts, and goes alone.
   */
  lemma EvictedForgets(before: map<string, Entry>, after: map<string, Entry>, now: int)
    requires |before| == MAX_ENTRIES && Evicted(before, after, now)
    ensures |after| < MAX_ENTRIES
    ensures forall k {:trigger k in after} :: k in before && (before[k].until.None? || before[k].until.value <= now) ==> k !in after
    ensures forall k, j {:trigger k in after, before[j]} ::
      k in before && before[k].until.Some? && now < before[k].until.value && k !in after && j in before ==>
      before[j].until.Some? && now < before[j].until.value && before[k].until.value <= before[j].until.value && (j == k || j in after)
  {
    LiveDrops(before, now);
    var live := Live(before, now);
    if |live| == MAX_ENTRIES {
      var gone := before.Keys - live.Keys;
      assert |before.Keys| == |live.Keys| + |gone| by {
        assert before.Keys == live.Keys + gone;
      }
      assert gone == {};
    }
  }

  lemma LiveDrops(entries: map<string, Entry>, now: int)
    ensures |Live(entries, now)| <= |entries|
    ensures Live(entries, now) == entries - (set k | k in entries && Expired(entries[k], now))
  {
    SubsetSize(Live(entries, now).Keys, entries.Keys);
  }

  class HostBreaker {
    var entries: map<string, Entry>
    ghost var log: seq<Logged>
    ghost var forgotten: map<string, nat>

    ghost predicate Valid()
      reads this
    {
      && |entries| <= MAX_ENTRIES
      && LogEffective(log)
      && Agrees(entries, log, forgotten)
      && (|KeysOf(log)| <= MAX_ENTRIES ==> forgotten == map[])
    }

    /** The reports on which a host's entry rests. */
    ghost function Memory(key: string): seq<Report>
      requires Valid()
      reads this
    {
      assert Recalls(entries, log, key, Start(forgotten, key));
      Own(log, key)[Start(forgotten, key)..]
    }

    constructor ()
      ensures Valid() && entries == map[] && log == []
    {
      entries, log, forgotten := map[], [], map[];
      new;
      AgreesEmpty();
    }

    /** What every reachable state says about one host. */
    lemma HostState(key: string)
      requires Valid()
      ensures Means(Lookup(entries, key), Memory(key))
      ensures key in entries <==> Lookup(entries, key) != BLANK
      ensures Lookup(entries, key).until.Some? <==> Lookup(entries, key).failures >= THRESHOLD
      ensures |KeysOf(log)| <= MAX_ENTRIES ==> Memory(key) == Own(log, key)
    {
      OwnEffective(log, key);
      assert Recalls(entries, log, key, Start(forgotten, key));
      ReplayedMeans(Memory(key));
    }

    /** `local_bypass_breaker_tripped`. */
    method Tripped(key: string, now: int) returns (r: bool)
      requires Valid()
      ensures r <==> Losses(Memory(key)) >= 3 && now < Memory(key)[|Memory(key)| - 1].at + 30_000
    {
      HostState(key);
      if key !in entries {
        return false;
      }
      var entry := entries[key];
      if entry.until.None? {
        return false;
      }
      return now < entry.until.value;
    }

    /** `evict_if_at_cap`. */
    method EvictIfAtCap(key: string, now: int)
      requires Valid()
      modifies this`entries, this`forgotten
      ensures |entries| <= MAX_ENTRIES && Agrees(entries, log, forgotten)
      ensures key in entries || |entries| < MAX_ENTRIES
      ensures Lookup(entries, key) == old(Lookup(entries, key)) && entries.Keys <= old(entries).Keys
      ensures if old(|entries|) < MAX_ENTRIES || key in old(entries)
              then entries == old(entries) && forgotten == old(forgotten)
              else Evicted(old(entries), entries, now)
      ensures ForgetsOnly(old(entries), entries, old(forgotten), forgotten)
      ensures |KeysOf(log) + {key}| <= MAX_ENTRIES ==> forgotten == map[]
    {
      if |KeysOf(log) + {key}| <= MAX_ENTRIES {
        WithinCapacity(key);
        SubsetSize(KeysOf(log), KeysOf(log) + {key});
      }
      if |entries| < MAX_ENTRIES || key in entries {
        return;
      }
      Sweep(now);
    }

    /** The sweep of a full map. */
    method Sweep(now: int)
      requires |entries| == MAX_ENTRIES && Agrees(entries, log, forgotten)
      modifies this`entries, this`forgotten
      ensures |entries| < MAX_ENTRIES && Agrees(entries, log, forgotten)
      ensures entries.Keys <= old(entries).Keys && Evicted(old(entries), entries, now)
      ensures ForgetsOnly(old(entries), entries, old(forgotten), forgotten)
    {
      LiveDrops(entries, now);
      Forget(set k | k in entries && Expired(entries[k], now));
      if |entries| >= MAX_ENTRIES {
        var oldest := SoonestKey(entries);
        Forget({oldest});
      }
    }

    method Forget(gone: set<string>)
      requires Agrees(entries, log, forgotten)
      modifies this`entries, this`forgotten
      ensures entries == old(entries) - gone && Agrees(entries, log, forgotten)
      ensures forall k {:trigger Start(forgotten, k)} :: k !in gone ==> Start(forgotten, k) == Start(old(forgotten), k)
    {
      AgreesAfterDrop(entries, gone, log, forgotten);
      forgotten := forgotten + map k | k in gone :: |Own(log, k)|;
      entries := entries - gone;
    }

    /** `local_bypass_note_dial_outcome`; the clock is read once for eviction and once for the cooldown. */
    method NoteDialOutcome(key: string, failed: seq<string>, winner: Option<string>, evictAt: int, at: int)
      requires Valid()
      modifies this
      ensures Valid()
      ensures !Effective(Report(failed, winner, at)) ==> entries == old(entries) && log == old(log)
      ensures Effective(Report(failed, winner, at)) ==>
        && log == old(log) + [Logged(key, Report(failed, winner, at))]
        && Lookup(entries, key) == Apply(old(Lookup(entries, key)), Report(failed, winner, at))
      ensures Effective(Report(failed, winner, at)) && !(old(|entries|) < MAX_ENTRIES || key in old(entries)) ==>
        Evicted(old(entries), entries - {key}, evictAt)
      ensures old(|entries|) < MAX_ENTRIES || key in old(entries) ==> entries - {key} == old(entries) - {key}
      ensures ForgetsOnly(old(entries), entries, old(forgotten), forgotten)
    {
      if failed == [] && winner.None? {
        return;
      }
      EvictIfAtCap(key, evictAt);
      ghost var kept := entries;
      var updated := Updated(Lookup(entries, key), failed, winner, at);
      Store(key, Report(failed, winner, at), updated);
      StoredElsewhereOnly(old(entries), kept, entries, key, old(forgotten), forgotten);
    }

    /** Keep the entry, or drop it when nothing is left to remember. */
    method Store(key: string, r: Report, e: Entry)
      requires |entries| <= MAX_ENTRIES && Agrees(entries, log, forgotten) && LogEffective(log)
      requires key in entries || |entries| < MAX_ENTRIES
      requires |KeysOf(log) + {key}| <= MAX_ENTRIES ==> forgotten == map[]
      requires Effective(r) && e == Apply(Lookup(entries, key), r)
      modifies this`entries, this`log
      ensures Valid()
      ensures log == old(log) + [Logged(key, r)]
      ensures Lookup(entries, key) == e && entries - {key} == old(entries) - {key}
    {
      AgreesAfterReport(entries, key, r, log, forgotten);
      OwnSnoc(log, key, r, key);
      StoredOnly(entries, key, e);
      StoredSize(entries, key, e);
      entries := Stored(entries, key, e);
      log := log + [Logged(key, r)];
    }

    /** While at most 256 hosts were ever reported, this report included, there is room. */
    lemma WithinCapacity(key: string)
      requires Valid() && |KeysOf(log) + {key}| <= MAX_ENTRIES
      ensures key in entries || |entries| < MAX_ENTRIES
    {
      if key !in entries {
        SubsetSize(entries.Keys + {key}, KeysOf(log) + {key});
      }
    }
  }

  /** The update of one entry, in the order in which its fields are changed. */
  method Updated(entry: Entry, failed: seq<string>, winner: Option<string>, at: int) returns (e: Entry)
    requires Effective(Report(failed, winner, at))
    ensures e == Apply(entry, Report(failed, winner, at))
  {
    var strikes := entry.strikes;
    for i := 0 to |failed|
      invariant strikes == Struck(entry.strikes, failed[..i], winner)
    {
      assert failed[..i + 1][..i] == failed[..i];
      var pid := failed[i];
      if winner == Some(pid) {
        continue;
      }
      strikes := strikes[pid := Saturate(StrikesOf(strikes, pid) + 1)];
    }
    assert failed[..|failed|] == failed;
    e := entry.(strikes := strikes);
    if winner.Some? {
      e := Entry(0, None, strikes - {winner.value});
    } else {
      e := e.(failures := Saturate(e.failures + 1));
      if e.failures >= THRESHOLD {
        e := e.(until := Some(at + COOLDOWN));
      }
    }
  }
}
