/**
 The response cache: a map, a queue of its keys and a byte count, kept in step with
 each other and with a plain history of what was stored and what was evicted.
 */
module Cache {
  import opened Prelude

  const MAX_ENTRY_FRACTION := 4

  datatype Cached = Cached(bytes: seq<byte>, expires: int)

  /** A cached response under its key; the cache is a list of these, oldest first. */
  datatype Item = Item(key: string, cached: Cached)

  datatype Event =
    | Stored(key: string, cached: Cached)
    | Evicted(key: string)
    | Answered(key: string, hit: bool)

  function SaturatingSub(a: nat, b: nat): nat { if a < b then 0 else a - b }

  // ---------- The list of items ----------

  function Total(items: seq<Item>): nat {
    if items == [] then 0 else |items[0].cached.bytes| + Total(items[1..])
  }

  function Without(items: seq<Item>, key: string): seq<Item> {
    if items == [] then []
    else if items[0].key == key then Without(items[1..], key)
    else [items[0]] + Without(items[1..], key)
  }

  function Retain(order: seq<string>, key: string): seq<string> {
    if order == [] then []
    else if order[0] == key then Retain(order[1..], key)
    else [order[0]] + Retain(order[1..], key)
  }

  ghost predicate NoRepeats(order: seq<string>) {
    forall i, j {:trigger order[i], order[j]} :: 0 <= i < j < |order| ==> order[i] != order[j]
  }

  /** The queue lists each key of the map once. */
  ghost predicate Lists(order: seq<string>, entries: map<string, Cached>) {
    && NoRepeats(order)
    && (forall key :: key in order <==> key in entries)
  }

  function Items(order: seq<string>, entries: map<string, Cached>): (items: seq<Item>)
    requires forall key :: key in order ==> key in entries
    ensures |items| == |order|
  {
    if order == [] then []
    else [Item(order[0], entries[order[0]])] + Items(order[1..], entries)
  }

  function KeysOf(items: seq<Item>): seq<string> { seq(|items|, i requires 0 <= i < |items| => items[i].key) }

  /** The item goes last, and of the other items just enough of the oldest go that all fits. */
  ghost predicate MadeRoom(before: seq<Item>, after: seq<Item>, item: Item, dropped: nat, maxBytes: nat) {
    var rest, size := Without(before, item.key), |item.cached.bytes|;
    && dropped <= |rest|
    && after == rest[dropped..] + [item]
    && Total(rest[dropped..]) + size <= maxBytes
    && (dropped > 0 ==> Total(rest[dropped - 1..]) + size > maxBytes)
  }

  lemma {:induction false} ItemAt(order: seq<string>, entries: map<string, Cached>, i: nat)
    requires i < |order| && forall key :: key in order ==> key in entries
    ensures Items(order, entries)[i] == Item(order[i], entries[order[i]])
  {
    if i > 0 {
      ItemAt(order[1..], entries, i - 1);
    }
  }

  /** Entries that the queue does not list do not matter. */
  lemma {:induction false} ItemsFrame(order: seq<string>, a: map<string, Cached>, b: map<string, Cached>)
    requires forall key :: key in order ==> key in a && key in b && a[key] == b[key]
    ensures Items(order, a) == Items(order, b)
  {
    if order != [] {
      assert order[0] in order;
      ItemsFrame(order[1..], a, b);
    }
  }

  lemma {:induction false} RetainMembers(order: seq<string>, key: string)
    ensures forall k :: k in Retain(order, key) <==> k in order && k != key
  {
    if order != [] {
      RetainMembers(order[1..], key);
      assert forall k :: k in order <==> k == order[0] || k in order[1..];
    }
  }

  lemma TailUnique(order: seq<string>, entries: map<string, Cached>)
    requires Lists(order, entries) && order != []
    ensures Lists(order[1..], entries - {order[0]})
    ensures Items(order[1..], entries - {order[0]}) == Items(order, entries)[1..]
  {
    var rest := order[1..];
    assert forall i {:trigger rest[i]} :: 0 <= i < |rest| ==> rest[i] == order[i + 1];
    assert forall k :: k in order <==> k == order[0] || k in rest;
    assert order[0] !in rest;
    ItemsFrame(rest, entries, entries - {order[0]});
  }

  lemma {:induction false} RetainUnique(order: seq<string>, key: string)
    requires NoRepeats(order)
    ensures NoRepeats(Retain(order, key))
  {
    if order != [] {
      var rest := order[1..];
      assert forall i {:trigger rest[i]} :: 0 <= i < |rest| ==> rest[i] == order[i + 1];
      RetainUnique(rest, key);
      RetainMembers(rest, key);
      assert order[0] !in Retain(rest, key);
    }
  }

  lemma RetainLists(order: seq<string>, entries: map<string, Cached>, key: string)
    requires Lists(order, entries)
    ensures Lists(Retain(order, key), entries - {key})
  {
    RetainUnique(order, key);
    RetainMembers(order, key);
  }

  /** Removing a key from the queue removes its item from the list. */
  lemma {:induction false} RetainItems(order: seq<string>, entries: map<string, Cached>, key: string)
    requires forall k :: k in order ==> k in entries
    ensures forall k :: k in Retain(order, key) ==> k in entries
    ensures Items(Retain(order, key), entries) == Without(Items(order, entries), key)
  {
    RetainMembers(order, key);
    if order != [] {
      assert forall k :: k in order[1..] ==> k in order;
      RetainItems(order[1..], entries, key);
      WithoutCons(Item(order[0], entries[order[0]]), Items(order[1..], entries), key);
      if order[0] != key {
        RetainMembers(order[1..], key);
        ItemsCons(order[0], Retain(order[1..], key), entries);
      }
    }
  }

  lemma ItemsCons(key: string, rest: seq<string>, entries: map<string, Cached>)
    requires key in entries && forall k :: k in rest ==> k in entries
    ensures forall k :: k in [key] + rest ==> k in entries
    ensures Items([key] + rest, entries) == [Item(key, entries[key])] + Items(rest, entries)
  {
    assert ([key] + rest)[1..] == rest;
  }

  lemma WithoutCons(x: Item, rest: seq<Item>, key: string)
    ensures Without([x] + rest, key) == if x.key == key then Without(rest, key) else [x] + Without(rest, key)
    ensures Total([x] + rest) == |x.cached.bytes| + Total(rest)
  {
    assert ([x] + rest)[1..] == rest;
  }

  lemma {:induction false} WithoutAbsent(items: seq<Item>, key: string)
    requires forall i {:trigger items[i]} :: 0 <= i < |items| ==> items[i].key != key
    ensures Without(items, key) == items
  {
    if items != [] {
      WithoutAbsent(items[1..], key);
    }
  }

  /** What the removed item weighed is what the list loses. */
  lemma {:induction false} WithoutPresent(items: seq<Item>, key: string, at: nat)
    requires at < |items| && items[at].key == key
    requires forall i {:trigger items[i]} :: 0 <= i < |items| && i != at ==> items[i].key != key
    ensures Total(items) == Total(Without(items, key)) + |items[at].cached.bytes|
  {
    var rest := items[1..];
    assert items == [items[0]] + rest;
    WithoutCons(items[0], rest, key);
    if at == 0 {
      WithoutAbsent(rest, key);
    } else {
      WithoutPresent(rest, key, at - 1);
      WithoutCons(items[0], Without(rest, key), key);
    }
  }

  lemma WithoutTotal(order: seq<string>, entries: map<string, Cached>, key: string)
    requires Lists(order, entries)
    ensures key in entries ==>
      Total(Items(order, entries)) == Total(Without(Items(order, entries), key)) + |entries[key].bytes|
    ensures key !in entries ==> Without(Items(order, entries), key) == Items(order, entries)
  {
    var items := Items(order, entries);
    forall i | 0 <= i < |order|
      ensures items[i] == Item(order[i], entries[order[i]])
    {
      ItemAt(order, entries, i);
    }
    if key in entries {
      assert key in order;
      var at :| 0 <= at < |order| && order[at] == key;
      WithoutPresent(items, key, at);
    } else {
      assert key !in order;
      WithoutAbsent(items, key);
    }
  }

  /** The map without some keys. */
  ghost function Less(entries: map<string, Cached>, gone: seq<string>): map<string, Cached> {
    entries - (set k | k in gone)
  }

  lemma LessNext(entries: map<string, Cached>, order: seq<string>, n: nat)
    requires n < |order|
    ensures Less(entries, order[..n + 1]) == Less(entries, order[..n]) - {order[n]}
  {
    assert order[..n + 1] == order[..n] + [order[n]];
  }

  lemma SnocLists(order: seq<string>, entries: map<string, Cached>, key: string, c: Cached)
    requires Lists(order, entries) && key !in entries
    ensures Lists(order + [key], entries[key := c])
  {
    assert forall k :: k in order + [key] <==> k in order || k == key;
  }

  lemma {:induction false} SnocItems(order: seq<string>, entries: map<string, Cached>, key: string, c: Cached)
    requires key !in order && forall k :: k in order ==> k in entries
    ensures forall k :: k in order + [key] ==> k in entries[key := c]
    ensures Items(order + [key], entries[key := c]) == Items(order, entries) + [Item(key, c)]
    ensures Total(Items(order + [key], entries[key := c])) == Total(Items(order, entries)) + |c.bytes|
  {
    if order == [] {
      assert [key][1..] == [];
    } else {
      SnocItems(order[1..], entries, key, c);
      assert (order + [key])[1..] == order[1..] + [key];
      assert order[0] in order;
    }
  }

  // ---------- History ----------

  /** The latest response stored under a key and not evicted since. */
  ghost function LastStored(log: seq<Event>, key: string): Option<Cached> {
    if log == [] then None
    else
      match log[|log| - 1]
      case Stored(k, c) => if k == key then Some(c) else LastStored(log[..|log| - 1], key)
      case Evicted(k) => if k == key then None else LastStored(log[..|log| - 1], key)
      case Answered(_, _) => LastStored(log[..|log| - 1], key)
  }

  predicate Touches(e: Event, key: string) { !e.Answered? && e.key == key }

  /** It was stored at some point, and the key was neither stored again nor evicted after that. */
  lemma {:induction false} LastStoredMeans(log: seq<Event>, key: string, c: Cached)
    ensures LastStored(log, key) == Some(c) <==>
      exists i {:trigger log[i]} :: 0 <= i < |log| && log[i] == Stored(key, c) && !TouchedAfter(log, i, key)
  {
    if log != [] {
      var front, n := log[..|log| - 1], |log| - 1;
      LastStoredMeans(front, key, c);
      forall i | 0 <= i < n
        ensures front[i] == log[i]
        ensures TouchedAfter(log, i, key) <==> TouchedAfter(front, i, key) || Touches(log[n], key)
      {
        TouchedNext(log, i, key);
      }
    }
  }

  lemma TouchedNext(log: seq<Event>, i: nat, key: string)
    requires i < |log| - 1
    ensures TouchedAfter(log, i, key) <==> TouchedAfter(log[..|log| - 1], i, key) || Touches(log[|log| - 1], key)
  {
    var front, n := log[..|log| - 1], |log| - 1;
    if TouchedAfter(log, i, key) {
      var j :| i < j < |log| && Touches(log[j], key);
      assert j < n ==> front[j] == log[j];
    }
    if TouchedAfter(front, i, key) {
      var j :| i < j < |front| && Touches(front[j], key);
      assert log[j] == front[j];
    }
  }

  ghost predicate TouchedAfter(log: seq<Event>, i: nat, key: string) {
    exists j {:trigger log[j]} :: i < j < |log| && Touches(log[j], key)
  }

  ghost function Answers(log: seq<Event>, hit: bool): nat {
    if log == [] then 0 else Answers(log[..|log| - 1], hit) + if log[|log| - 1].Answered? && log[|log| - 1].hit == hit then 1 else 0
  }

  lemma AnswersSnoc(log: seq<Event>, key: string, hit: bool)
    ensures forall h :: Answers(log + [Answered(key, hit)], h) == Answers(log, h) + if h == hit then 1 else 0
    ensures forall h :: (Answers(log, h) + 1) % U64_LIMIT == (Answers(log, h) % U64_LIMIT + 1) % U64_LIMIT
  {
    LogSnoc(log, Answered(key, hit));
  }

  /** The map holds the latest unevicted responses, except some that have expired. */
  ghost predicate Faithful(entries: map<string, Cached>, log: seq<Event>, clock: int) {
    forall key {:trigger LastStored(log, key)} ::
      if key in entries then LastStored(log, key) == Some(entries[key])
      else LastStored(log, key).None? || LastStored(log, key).value.expires <= clock
  }

  ghost function Evictions(keys: seq<string>): seq<Event> { seq(|keys|, i requires 0 <= i < |keys| => Evicted(keys[i])) }

  lemma LogSnoc(log: seq<Event>, e: Event)
    ensures (log + [e])[..|log|] == log
  {}

  lemma {:induction false} AfterEvictions(log: seq<Event>, gone: seq<string>)
    ensures forall key {:trigger LastStored(log + Evictions(gone), key)} ::
      LastStored(log + Evictions(gone), key) == if key in gone then None else LastStored(log, key)
    ensures forall hit :: Answers(log + Evictions(gone), hit) == Answers(log, hit)
  {
    if gone == [] {
      assert log + Evictions(gone) == log;
    } else {
      var front, last := gone[..|gone| - 1], gone[|gone| - 1];
      AfterEvictions(log, front);
      assert gone == front + [last];
      assert log + Evictions(gone) == log + Evictions(front) + [Evicted(last)];
      LogSnoc(log + Evictions(front), Evicted(last));
    }
  }

  /** A put: the evicted keys lose their responses, the key gets its new one, and nothing else changes. */
  lemma FaithfulAfterPut(entries: map<string, Cached>, log: seq<Event>, clock: int,
                         gone: seq<string>, key: string, c: Cached, now: int)
    requires Faithful(entries, log, clock) && clock <= now
    ensures Faithful(Less(entries, gone)[key := c], log + Evictions(gone) + [Stored(key, c)], now)
  {
    AfterEvictions(log, gone);
    LogSnoc(log + Evictions(gone), Stored(key, c));
    var log' := log + Evictions(gone) + [Stored(key, c)];
    forall k
      ensures LastStored(log', k) == if k == key then Some(c) else if k in gone then None else LastStored(log, k)
    {
      assert LastStored(log + Evictions(gone), k) == if k in gone then None else LastStored(log, k);
    }
  }

  lemma SameUpdate(entries: map<string, Cached>, gone: seq<string>, key: string, c: Cached)
    ensures Less(entries - {key}, gone)[key := c] == Less(entries, gone)[key := c]
  {}

  lemma FaithfulLater(entries: map<string, Cached>, log: seq<Event>, clock: int, now: int)
    requires Faithful(entries, log, clock) && clock <= now
    ensures Faithful(entries, log, now)
  {}

  /** A get: only an expired response may go. */
  lemma FaithfulAfterGet(entries: map<string, Cached>, log: seq<Event>, clock: int, key: string, hit: bool, now: int)
    requires Faithful(entries, log, clock) && clock <= now
    ensures Faithful(entries, log + [Answered(key, hit)], now)
    ensures key in entries && entries[key].expires <= now ==> Faithful(entries - {key}, log + [Answered(key, hit)], now)
  {
    LogSnoc(log, Answered(key, hit));
    var log' := log + [Answered(key, hit)];
    forall k
      ensures LastStored(log', k) == LastStored(log, k)
    {}
  }

  class ResponseCache {
    const maxBytes: nat
    var entries: map<string, Cached>
    var order: seq<string>
    var size: nat
    var hits: nat
    var misses: nat
    ghost var log: seq<Event>
    ghost var clock: int

    ghost predicate Valid()
      reads this
    {
      && Lists(order, entries)
      && size == Total(Items(order, entries)) <= maxBytes
      && Faithful(entries, log, clock)
      && hits == Answers(log, true) % U64_LIMIT
      && misses == Answers(log, false) % U64_LIMIT
    }

    /** The cached responses, oldest first. */
    ghost function Contents(): seq<Item>
      requires Valid()
      reads this
    {
      Items(order, entries)
    }

    constructor (maxBytes: nat)
      ensures Valid() && Contents() == [] && this.maxBytes == maxBytes && log == []
    {
      this.maxBytes := maxBytes;
      entries, order, size, hits, misses, log := map[], [], 0, 0, 0, [];
    }

    /** The queue and the byte count match the map. */
    ghost predicate InStep()
      reads this
    {
      Lists(order, entries) && size == Total(Items(order, entries)) && size <= maxBytes
    }

    method RemoveKey(key: string)
      requires InStep() && key in entries
      modifies this`entries, this`order, this`size
      ensures InStep() && entries == old(entries) - {key}
      ensures Items(order, entries) == Without(old(Items(order, entries)), key)
    {
      RetainLists(order, entries, key);
      RetainItems(order, entries, key);
      ItemsFrame(Retain(order, key), entries, entries - {key});
      WithoutTotal(order, entries, key);
      var weight := |entries[key].bytes|;
      entries := entries - {key};
      order := Retain(order, key);
      size := SaturatingSub(size, weight);
    }

    /** `get`: the latest unevicted response, unless it has expired. */
    method Get(key: string, now: int) returns (r: Option<seq<byte>>)
      requires Valid() && clock <= now
      modifies this
      ensures Valid() && clock == now
      ensures match LastStored(old(log), key)
              case Some(c) => r == if c.expires > now then Some(c.bytes) else None
              case None => r == None
      ensures log == old(log) + [Answered(key, r.Some?)]
      ensures Contents() == if r.None? then Without(old(Contents()), key) else old(Contents())
    {
      ghost var last := LastStored(log, key);
      FaithfulAfterGet(entries, log, clock, key, key in entries && entries[key].expires > now, now);
      clock := now;
      if key in entries {
        var entry := entries[key];
        if entry.expires > now {
          Answer(key, true);
          return Some(entry.bytes);
        }
        RemoveKey(key);
      } else {
        WithoutTotal(order, entries, key);
      }
      Answer(key, false);
      return None;
    }

    /** Count a hit or a miss; the counters are 64 bits wide. */
    method Answer(key: string, hit: bool)
      requires hits == Answers(log, true) % U64_LIMIT && misses == Answers(log, false) % U64_LIMIT
      modifies this`hits, this`misses, this`log
      ensures hits == Answers(log, true) % U64_LIMIT && misses == Answers(log, false) % U64_LIMIT
      ensures log == old(log) + [Answered(key, hit)]
    {
      AnswersSnoc(log, key, hit);
      log := log + [Answered(key, hit)];
      if hit {
        hits := (hits + 1) % U64_LIMIT;
      } else {
        misses := (misses + 1) % U64_LIMIT;
      }
    }

    /** The eviction loop: drop the shortest oldest-first prefix that makes room. */
    method MakeRoom(room: nat) returns (ghost dropped: nat)
      requires InStep() && room <= maxBytes
      modifies this`entries, this`order, this`size
      ensures InStep() && size + room <= maxBytes
      ensures dropped <= |old(Items(order, entries))|
      ensures entries == Less(old(entries), KeysOf(old(Items(order, entries)))[..dropped])
      ensures Items(order, entries) == old(Items(order, entries))[dropped..]
      ensures dropped > 0 ==> Total(old(Items(order, entries))[dropped - 1..]) + room > maxBytes
    {
      ghost var items := Items(order, entries);
      dropped := 0;
      while size + room > maxBytes
        invariant InStep() && dropped <= |items|
        invariant entries == Less(old(entries), KeysOf(items)[..dropped])
        invariant Items(order, entries) == items[dropped..]
        invariant dropped > 0 ==> Total(items[dropped - 1..]) + room > maxBytes
        decreases |order|
      {
        if order == [] {
          break;
        }
        LessNext(old(entries), KeysOf(items), dropped);
        PopOldest();
        dropped := dropped + 1;
      }
    }

    method PopOldest()
      requires InStep() && order != []
      modifies this`entries, this`order, this`size
      ensures InStep() && entries == old(entries) - {old(Items(order, entries))[0].key}
      ensures Items(order, entries) == old(Items(order, entries))[1..]
    {
      var oldest := order[0];
      TailUnique(order, entries);
      assert oldest in order;
      order := order[1..];
      if oldest in entries {
        var removed := entries[oldest];
        entries := entries - {oldest};
        size := SaturatingSub(size, |removed.bytes|);
      }
    }

    /** Accepted: non-empty and at most a quarter of the cache. */
    predicate Accepts(bytes: seq<byte>)
      reads this
    {
      bytes != [] && 4 * |bytes| <= maxBytes
    }

    /**
     `put`: the key's older response goes first, then the shortest oldest-first
     prefix of the others that makes room; `dropped` is its length.
     */
    method Put(key: string, bytes: seq<byte>, ttl: nat, now: int) returns (ghost dropped: nat)
      requires Valid() && clock <= now
      modifies this
      ensures Valid() && clock == now && hits == old(hits) && misses == old(misses)
      ensures !Accepts(bytes) ==> Contents() == old(Contents()) && log == old(log)
      ensures Accepts(bytes) ==> MadeRoom(old(Contents()), Contents(), Item(key, Cached(bytes, now + ttl)), dropped, maxBytes)
      ensures Accepts(bytes) ==>
        log == old(log) + Evictions(KeysOf(Without(old(Contents()), key))[..dropped]) + [Stored(key, Cached(bytes, now + ttl))]
    {
      dropped := 0;
      if |bytes| == 0 || |bytes| > maxBytes / MAX_ENTRY_FRACTION {
        FaithfulLater(entries, log, clock, now);
        clock := now;
        return;
      }
      ghost var was := entries;
      ghost var gone;
      dropped, gone := Replace(key, Cached(bytes, now + ttl));
      Record(was, gone, key, Cached(bytes, now + ttl), now);
    }

    /** Drop the key's older response, make room, and append the new one. */
    method Replace(key: string, c: Cached) returns (ghost dropped: nat, ghost gone: seq<string>)
      requires InStep() && |c.bytes| <= maxBytes
      modifies this`entries, this`order, this`size
      ensures InStep()
      ensures MadeRoom(old(Items(order, entries)), Items(order, entries), Item(key, c), dropped, maxBytes)
      ensures gone == KeysOf(Without(old(Items(order, entries)), key))[..dropped]
      ensures entries == Less(old(entries), gone)[key := c]
    {
      ghost var was := entries;
      DropOlder(key);
      ghost var keys := KeysOf(Items(order, entries));
      dropped := MakeRoom(|c.bytes|);
      gone := keys[..dropped];
      SameUpdate(was, gone, key, c);
      Insert(key, c);
    }

    method DropOlder(key: string)
      requires InStep()
      modifies this`entries, this`order, this`size
      ensures InStep() && entries == old(entries) - {key}
      ensures Items(order, entries) == Without(old(Items(order, entries)), key)
    {
      WithoutTotal(order, entries, key);
      if key in entries {
        RemoveKey(key);
      } else {
        assert entries == entries - {key};
      }
    }

    ghost method Record(was: map<string, Cached>, gone: seq<string>, key: string, c: Cached, now: int)
      requires Faithful(was, log, clock) && clock <= now
      requires entries == Less(was, gone)[key := c]
      modifies this`log, this`clock
      ensures Faithful(entries, log, clock) && clock == now
      ensures log == old(log) + Evictions(gone) + [Stored(key, c)]
      ensures forall hit :: Answers(log, hit) == Answers(old(log), hit)
    {
      FaithfulAfterPut(was, log, clock, gone, key, c, now);
      AfterEvictions(log, gone);
      LogSnoc(log + Evictions(gone), Stored(key, c));
      log, clock := log + Evictions(gone) + [Stored(key, c)], now;
    }

    method Insert(key: string, c: Cached)
      requires InStep() && key !in entries && size + |c.bytes| <= maxBytes
      modifies this`entries, this`order, this`size
      ensures InStep() && entries == old(entries)[key := c]
      ensures Items(order, entries) == old(Items(order, entries)) + [Item(key, c)]
    {
      SnocLists(order, entries, key, c);
      SnocItems(order, entries, key, c);
      entries := entries[key := c];
      order := order + [key];
      size := size + |c.bytes|;
    }
  }
}
