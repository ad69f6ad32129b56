/** The two-generation result cache, as a state machine over its puts and resets, and as the object itself. */
module Cache {
  import opened Bytes

  // One remembered lookup; times count in the clock's smallest unit.
  datatype CacheEntry = CacheEntry(fields: map<bytes, bytes>, found: bool, expires: int)

  datatype Generations = Generations(current: map<bytes, CacheEntry>, previous: Option<map<bytes, CacheEntry>>) {
    function Find(key: bytes): Option<CacheEntry>
    {
      if key in current then Some(current[key])
      else if previous.Some? && key in previous.value then Some(previous.value[key])
      else None
    }

    /** A hit is an entry that has not expired. */
    function Get(key: bytes, now: int): Option<CacheEntry>
    {
      var entry := Find(key);
      if entry.None? || now > entry.value.expires then None else entry
    }

    function Put(maxEntries: nat, key: bytes, entry: CacheEntry): Generations
    {
      if |current| >= maxEntries then Generations(map[key := entry], Some(current))
      else Generations(current[key := entry], previous)
    }
  }

  const EMPTY := Generations(map[], None)

  datatype Event = Put(key: bytes, fields: map<bytes, bytes>, found: bool, now: int) | Reset

  function EntryOf(e: Event, ttl: nat): CacheEntry
    requires e.Put?
  {
    CacheEntry(e.fields, e.found, e.now + ttl)
  }

  function Step(s: Generations, maxEntries: nat, ttl: nat, e: Event): Generations
  {
    match e
    case Put(key, _, _, _) => s.Put(maxEntries, key, EntryOf(e, ttl))
    case Reset => EMPTY
  }

  /** The generations after some events, the last event last. */
  function Run(start: Generations, maxEntries: nat, ttl: nat, events: seq<Event>): Generations
    decreases |events|
  {
    if events == [] then start
    else Step(Run(start, maxEntries, ttl, events[..|events| - 1]), maxEntries, ttl, events[|events| - 1])
  }

  /** The latest put of the key since the last reset. */
  function LatestPut(events: seq<Event>, key: bytes): Option<Event>
    decreases |events|
  {
    if events == [] then None
    else
      var last := events[|events| - 1];
      if last.Reset? then None
      else if last.key == key then Some(last)
      else LatestPut(events[..|events| - 1], key)
  }

  // -------------------------------------------------------------------------
  // The cache agrees with its history
  // -------------------------------------------------------------------------

  ghost predicate Agrees(s: Generations, ttl: nat, events: seq<Event>)
  {
    forall key :: s.Find(key).Some? ==>
      LatestPut(events, key).Some? && LatestPut(events, key).value.Put? &&
      s.Find(key).value == EntryOf(LatestPut(events, key).value, ttl)
  }

  /** Each generation holds at most `maxEntries`, and a previous generation exactly that many. */
  predicate Bounded(s: Generations, maxEntries: nat)
  {
    |s.current| <= maxEntries && (s.previous.Some? ==> |s.previous.value| == maxEntries)
  }

  lemma SizeAfterInsert(m: map<bytes, CacheEntry>, key: bytes, entry: CacheEntry)
    ensures |m[key := entry]| == if key in m then |m| else |m| + 1
  {
    assert m[key := entry].Keys == m.Keys + {key};
  }

  lemma {:induction false} RunBounded(maxEntries: nat, ttl: nat, events: seq<Event>)
    requires maxEntries > 0
    ensures Bounded(Run(EMPTY, maxEntries, ttl, events), maxEntries)
    decreases |events|
  {
    if events != [] {
      var front, last := events[..|events| - 1], events[|events| - 1];
      RunBounded(maxEntries, ttl, front);
      if last.Put? {
        SizeAfterInsert(Run(EMPTY, maxEntries, ttl, front).current, last.key, EntryOf(last, ttl));
        SizeAfterInsert(map[], last.key, EntryOf(last, ttl));
      }
    }
  }

  lemma {:induction false} RunAgrees(maxEntries: nat, ttl: nat, events: seq<Event>)
    ensures Agrees(Run(EMPTY, maxEntries, ttl, events), ttl, events)
    decreases |events|
  {
    if events != [] {
      RunAgrees(maxEntries, ttl, events[..|events| - 1]);
    }
  }

  /** Every hit is the latest put of its key since the last reset, and no older than the time to live. */
  lemma HitIsLatestPut(maxEntries: nat, ttl: nat, events: seq<Event>, key: bytes, now: int)
    requires Run(EMPTY, maxEntries, ttl, events).Get(key, now).Some?
    ensures var hit := Run(EMPTY, maxEntries, ttl, events).Get(key, now).value; var put := LatestPut(events, key);
            put.Some? && put.value.Put? && hit.fields == put.value.fields && hit.found == put.value.found &&
            now <= put.value.now + ttl
  {
    RunAgrees(maxEntries, ttl, events);
    assert Run(EMPTY, maxEntries, ttl, events).Find(key).Some?;
  }

  // -------------------------------------------------------------------------
  // Retention is exact
  // -------------------------------------------------------------------------

  /** How many puts a remembered key is sure to survive; negative when it is not remembered. */
  function Room(s: Generations, maxEntries: nat, key: bytes): int
  {
    if key in s.current then 2 * maxEntries - |s.current|
    else if s.previous.Some? && key in s.previous.value then maxEntries - |s.current|
    else -1
  }

  predicate OnlyPuts(events: seq<Event>)
  {
    forall i :: 0 <= i < |events| ==> events[i].Put?
  }

  lemma PutRoom(s: Generations, maxEntries: nat, ttl: nat, e: Event, key: bytes)
    requires maxEntries > 0 && Bounded(s, maxEntries) && e.Put?
    ensures var after := Step(s, maxEntries, ttl, e);
            && Bounded(after, maxEntries)
            && (Room(s, maxEntries, key) > 0 ==> Room(after, maxEntries, key) >= Room(s, maxEntries, key) - 1)
            && (e.key !in s.current && e.key != key && Room(s, maxEntries, key) >= 0 ==>
                  Room(after, maxEntries, key) == Room(s, maxEntries, key) - 1)
            && (Room(s, maxEntries, key) < 0 && e.key != key ==> Room(after, maxEntries, key) < 0)
  {
    SizeAfterInsert(s.current, e.key, EntryOf(e, ttl));
    SizeAfterInsert(map[], e.key, EntryOf(e, ttl));
  }

  /** A remembered key is still remembered after as many puts, of any keys, as it has room for. */
  lemma {:induction false} SurvivesRoom(s: Generations, maxEntries: nat, ttl: nat, puts: seq<Event>, key: bytes)
    requires maxEntries > 0 && Bounded(s, maxEntries) && OnlyPuts(puts) && |puts| <= Room(s, maxEntries, key)
    ensures var after := Run(s, maxEntries, ttl, puts);
            Bounded(after, maxEntries) && Room(after, maxEntries, key) >= Room(s, maxEntries, key) - |puts|
    ensures Run(s, maxEntries, ttl, puts).Find(key).Some?
    decreases |puts|
  {
    if puts != [] {
      var front := puts[..|puts| - 1];
      SurvivesRoom(s, maxEntries, ttl, front, key);
      PutRoom(Run(s, maxEntries, ttl, front), maxEntries, ttl, puts[|puts| - 1], key);
    }
  }

  /** Puts of new, distinct keys. */
  ghost predicate NewKeys(s: Generations, puts: seq<Event>, key: bytes)
  {
    && OnlyPuts(puts)
    && (forall i :: 0 <= i < |puts| ==> puts[i].key != key && puts[i].key !in s.current)
    && (forall i, j :: 0 <= i < j < |puts| ==> puts[i].key != puts[j].key)
  }

  lemma {:induction false} NewKeysUseRoom(s: Generations, maxEntries: nat, ttl: nat, puts: seq<Event>, key: bytes)
    requires maxEntries > 0 && Bounded(s, maxEntries) && NewKeys(s, puts, key) && 0 <= Room(s, maxEntries, key)
    requires |puts| <= Room(s, maxEntries, key) + 1
    ensures var after := Run(s, maxEntries, ttl, puts);
            && Bounded(after, maxEntries)
            && Room(after, maxEntries, key) == Room(s, maxEntries, key) - |puts|
            && forall k :: k in after.current ==> k in s.current || exists i :: 0 <= i < |puts| && puts[i].key == k
    decreases |puts|
  {
    if puts != [] {
      var n := |puts| - 1;
      var front, last := puts[..n], puts[n];
      NewKeysUseRoom(s, maxEntries, ttl, front, key);
      var before := Run(s, maxEntries, ttl, front);
      assert last.key !in before.current;
      PutRoom(before, maxEntries, ttl, last, key);
      var after := Run(s, maxEntries, ttl, puts);
      forall k | k in after.current
        ensures k in s.current || exists i :: 0 <= i < |puts| && puts[i].key == k
      {
        if k == last.key {
          assert puts[n].key == k;
        } else if k !in s.current {
          var i :| 0 <= i < |front| && front[i].key == k;
          assert puts[i].key == k;
        }
      }
    }
  }

  lemma NewKeysExist(s: Generations, key: bytes, n: nat) returns (puts: seq<Event>)
    ensures |puts| == n && NewKeys(s, puts, key)
  {
    var length := LongerThanAll(s.current.Keys + {key});
    puts := seq(n, i requires 0 <= i < n => Put(Padding(length + i), map[], false, 0));
    assert forall i :: 0 <= i < n ==> puts[i].key == Padding(length + i);
  }

  /**
   The exact retention bound. After a put the key survives any `n` puts of any keys if and only if `n`
   is at most 2 * maxEntries minus the size of the generation it went to, so never less than maxEntries.
   */
  lemma RetentionIsExact(s: Generations, maxEntries: nat, ttl: nat, e: Event, n: nat)
    requires maxEntries > 0 && Bounded(s, maxEntries) && e.Put?
    ensures var after := Step(s, maxEntries, ttl, e);
            (forall puts :: OnlyPuts(puts) && |puts| == n ==> Run(after, maxEntries, ttl, puts).Find(e.key).Some?)
            <==> n <= 2 * maxEntries - |after.current|
    ensures maxEntries <= 2 * maxEntries - |Step(s, maxEntries, ttl, e).current|
  {
    hide Run;
    var after := Step(s, maxEntries, ttl, e);
    var room := 2 * maxEntries - |after.current|;
    PutRoom(s, maxEntries, ttl, e, e.key);
    if n <= room {
      forall puts | OnlyPuts(puts) && |puts| == n
        ensures Run(after, maxEntries, ttl, puts).Find(e.key).Some?
      {
        SurvivesRoom(after, maxEntries, ttl, puts, e.key);
      }
    } else {
      var dropping := NewKeysExist(after, e.key, n);
      GoneBeyondRoom(after, maxEntries, ttl, dropping, e.key);
    }
  }

  lemma {:induction false} GoneBeyondRoom(s: Generations, maxEntries: nat, ttl: nat, puts: seq<Event>, key: bytes)
    requires maxEntries > 0 && Bounded(s, maxEntries) && NewKeys(s, puts, key) && 0 <= Room(s, maxEntries, key) < |puts|
    ensures Bounded(Run(s, maxEntries, ttl, puts), maxEntries)
    ensures Room(Run(s, maxEntries, ttl, puts), maxEntries, key) < 0
    ensures Run(s, maxEntries, ttl, puts).Find(key).None?
    decreases |puts|
  {
    if |puts| == Room(s, maxEntries, key) + 1 {
      NewKeysUseRoom(s, maxEntries, ttl, puts, key);
    } else {
      var front := puts[..|puts| - 1];
      GoneBeyondRoom(s, maxEntries, ttl, front, key);
      PutRoom(Run(s, maxEntries, ttl, front), maxEntries, ttl, puts[|puts| - 1], key);
    }
  }

  lemma {:induction false} RunAppends(s: Generations, maxEntries: nat, ttl: nat, a: seq<Event>, b: seq<Event>)
    ensures Run(s, maxEntries, ttl, a + b) == Run(Run(s, maxEntries, ttl, a), maxEntries, ttl, b)
    decreases |b|
  {
    hide Step;
    if b == [] {
      assert a + b == a;
    } else {
      RunAppends(s, maxEntries, ttl, a, b[..|b| - 1]);
      assert (a + b)[..|a + b| - 1] == a + b[..|b| - 1];
    }
  }

  lemma {:induction false} LatestPutStays(before: seq<Event>, e: Event, later: seq<Event>)
    requires e.Put? && forall i :: 0 <= i < |later| ==> later[i].Put? && later[i].key != e.key
    ensures LatestPut(before + [e] + later, e.key) == Some(e)
    decreases |later|
  {
    var all := before + [e] + later;
    if later == [] {
      assert all == before + [e];
    } else {
      LatestPutStays(before, e, later[..|later| - 1]);
      assert all[..|all| - 1] == before + [e] + later[..|later| - 1];
    }
  }

  /**
   A put entry is served, whatever came before, through any `maxEntries` later puts of other keys, until it
   expires and not afterwards.
   */
  lemma PutIsServed(maxEntries: nat, ttl: nat, before: seq<Event>, e: Event, later: seq<Event>, now: int)
    requires maxEntries > 0 && e.Put? && |later| <= maxEntries
    requires forall i :: 0 <= i < |later| ==> later[i].Put? && later[i].key != e.key
    ensures Run(EMPTY, maxEntries, ttl, before + [e] + later).Get(e.key, now) ==
            if now <= e.now + ttl then Some(EntryOf(e, ttl)) else None
  {
    hide Run, Step;
    var start := Run(EMPTY, maxEntries, ttl, before);
    var put := Run(EMPTY, maxEntries, ttl, before + [e]);
    assert put == Step(start, maxEntries, ttl, e) by {
      RunOne(start, maxEntries, ttl, e);
      RunAppends(EMPTY, maxEntries, ttl, before, [e]);
    }
    RunBounded(maxEntries, ttl, before);
    PutRoom(start, maxEntries, ttl, e, e.key);
    RetentionIsExact(start, maxEntries, ttl, e, |later|);
    RunAppends(EMPTY, maxEntries, ttl, before + [e], later);
    LatestPutStays(before, e, later);
    RunAgrees(maxEntries, ttl, before + [e] + later);
    assert Run(EMPTY, maxEntries, ttl, before + [e] + later).Find(e.key).Some?;
  }

  lemma RunOne(s: Generations, maxEntries: nat, ttl: nat, e: Event)
    ensures Run(s, maxEntries, ttl, [e]) == Step(s, maxEntries, ttl, e)
  {
    assert [e][..0] == [];
    assert Run(s, maxEntries, ttl, [e][..0]) == s;
  }

  lemma {:induction false} FillingGrows(maxEntries: nat, ttl: nat, puts: seq<Event>, key: bytes)
    requires NewKeys(EMPTY, puts, key) && |puts| <= maxEntries
    ensures var filled := Run(EMPTY, maxEntries, ttl, puts);
            && filled.previous.None? && |filled.current| == |puts|
            && forall k :: k in filled.current ==> exists i :: 0 <= i < |puts| && puts[i].key == k
    decreases |puts|
  {
    if puts != [] {
      var n := |puts| - 1;
      var front, last := puts[..n], puts[n];
      FillingGrows(maxEntries, ttl, front, key);
      var before := Run(EMPTY, maxEntries, ttl, front);
      assert last.key !in before.current;
      SizeAfterInsert(before.current, last.key, EntryOf(last, ttl));
      var after := before.current[last.key := EntryOf(last, ttl)];
      forall k | k in after
        ensures exists i :: 0 <= i < |puts| && puts[i].key == k
      {
        if k == last.key {
          assert puts[n].key == k;
        } else {
          var i :| 0 <= i < |front| && front[i].key == k;
          assert puts[i].key == k;
        }
      }
    }
  }

  /** The bound of `maxEntries` later puts is sharp: one more can drop an entry put into a filled generation. */
  lemma RetentionIsSharp(maxEntries: nat, ttl: nat, e: Event)
    requires maxEntries > 0 && e.Put?
    ensures exists before, later ::
              && OnlyPuts(before) && OnlyPuts(later) && |later| == maxEntries + 1
              && var put := Step(Run(EMPTY, maxEntries, ttl, before), maxEntries, ttl, e);
                 Run(put, maxEntries, ttl, later).Find(e.key).None?
  {
    hide Run;
    var before := NewKeysExist(EMPTY, e.key, maxEntries - 1);
    FillingGrows(maxEntries, ttl, before, e.key);
    var filled := Run(EMPTY, maxEntries, ttl, before);
    SizeAfterInsert(filled.current, e.key, EntryOf(e, ttl));
    var full := Step(filled, maxEntries, ttl, e);
    var later := NewKeysExist(full, e.key, maxEntries + 1);
    GoneBeyondRoom(full, maxEntries, ttl, later, e.key);
  }

  // -------------------------------------------------------------------------
  // Counting
  // -------------------------------------------------------------------------

  /** The keys of both generations. */
  function Keys(s: Generations): set<bytes>
  {
    s.current.Keys + if s.previous.Some? then s.previous.value.Keys else {}
  }

  /** The keys that would be hits. */
  function LiveKeys(s: Generations, now: int): set<bytes>
  {
    set key | key in Keys(s) && s.Get(key, now).Some?
  }

  /** The sizes of both generations added up. */
  function Count(s: Generations): nat
  {
    |s.current| + if s.previous.Some? then |s.previous.value| else 0
  }

  lemma SubsetSize(a: set<bytes>, b: set<bytes>)
    requires a <= b
    ensures |a| <= |b| && (|a| == |b| <==> a == b)
  {
    assert b == a + (b - a);
  }

  lemma UnionSize(a: set<bytes>, b: set<bytes>)
    ensures |a + b| <= |a| + |b| && (|a + b| == |a| + |b| <==> a !! b)
  {
    assert |a + b| == |a| + |b| - |a * b|;
  }

  /**
   The count is that of the keys that would be hits if and only if no key is in both generations and none has
   expired.
   */
  lemma CountIsLiveIff(s: Generations, now: int)
    ensures |LiveKeys(s, now)| <= Count(s)
    ensures |LiveKeys(s, now)| == Count(s) <==>
            && (s.previous.Some? ==> s.current.Keys !! s.previous.value.Keys)
            && forall key :: key in Keys(s) ==> s.Get(key, now).Some?
  {
    hide Generations.Get;
    var previous := if s.previous.Some? then s.previous.value.Keys else {};
    SubsetSize(LiveKeys(s, now), Keys(s));
    UnionSize(s.current.Keys, previous);
    assert |s.current| == |s.current.Keys|;
    assert s.previous.Some? ==> |s.previous.value| == |s.previous.value.Keys|;
  }

  /** Two puts of one key into a cache of one entry are counted as two, and one key is live. */
  lemma RepeatedPutCountsTwice(ttl: nat, key: bytes, first: Event, second: Event)
    requires first.Put? && second.Put? && first.key == second.key == key
    ensures var s := Run(EMPTY, 1, ttl, [first, second]); Count(s) == 2 && LiveKeys(s, second.now) == {key}
  {
    var one, both := [first], [first, second];
    assert both[..1] == one && one[..0] == [];
    assert Run(EMPTY, 1, ttl, one) == Generations(map[key := EntryOf(first, ttl)], None);
    assert Run(EMPTY, 1, ttl, both) ==
           Generations(map[key := EntryOf(second, ttl)], Some(map[key := EntryOf(first, ttl)]));
  }

  /** An expired entry is counted. */
  lemma ExpiredPutIsCounted(maxEntries: nat, ttl: nat, put: Event)
    requires maxEntries > 0 && put.Put?
    ensures var s := Run(EMPTY, maxEntries, ttl, [put]); Count(s) == 1 && LiveKeys(s, put.now + ttl + 1) == {}
  {
    var one := [put];
    assert one[..0] == [];
    assert Run(EMPTY, maxEntries, ttl, one) == Generations(map[put.key := EntryOf(put, ttl)], None);
  }

  // -------------------------------------------------------------------------
  // The cache object
  // -------------------------------------------------------------------------

  class ResultCache {
    var current: map<bytes, CacheEntry>
    var previous: Option<map<bytes, CacheEntry>>
    const maxEntries: nat
    const ttl: nat

    function View(): Generations
      reads this
    {
      Generations(current, previous)
    }

    ghost predicate Valid()
      reads this
    {
      maxEntries > 0 && ttl > 0 && Bounded(View(), maxEntries)
    }

    constructor (maxEntries: nat, ttl: nat)
      requires maxEntries > 0 && ttl > 0
      ensures Valid() && View() == EMPTY && this.maxEntries == maxEntries && this.ttl == ttl
    {
      this.maxEntries := maxEntries;
      this.ttl := ttl;
      current := map[];
      previous := None;
    }

    method Put(key: bytes, fields: map<bytes, bytes>, found: bool, now: int)
      requires Valid()
      modifies this
      ensures Valid() && View() == Step(old(View()), maxEntries, ttl, Event.Put(key, fields, found, now))
    {
      var entry := CacheEntry(fields, found, now + ttl);
      SizeAfterInsert(current, key, entry);
      SizeAfterInsert(map[], key, entry);
      if |current| >= maxEntries {
        previous := Some(current);
        current := map[];
      }
      current := current[key := entry];
    }

    method Get(key: bytes, now: int) returns (r: Option<CacheEntry>)
      ensures r == View().Get(key, now)
    {
      if key in current {
        r := Some(current[key]);
      } else if previous.Some? && key in previous.value {
        r := Some(previous.value[key]);
      } else {
        r := None;
      }
      if r.Some? && now > r.value.expires {
        r := None;
      }
    }

    method Clear()
      requires Valid()
      modifies this
      ensures Valid() && View() == Step(old(View()), maxEntries, ttl, Reset)
    {
      current := map[];
      previous := None;
    }

    /** The count of both generations; a key put in each is counted twice. */
    method Len() returns (n: nat)
      requires Valid()
      ensures n == Count(View()) <= 2 * maxEntries
    {
      n := |current| + if previous.Some? then |previous.value| else 0;
    }
  }

  /** No cache at all when either limit is switched off. */
  method NewResultCache(maxEntries: int, ttl: int) returns (c: ResultCache?)
    ensures c == null <==> maxEntries <= 0 || ttl <= 0
    ensures c != null ==> fresh(c) && c.Valid() && c.View() == EMPTY && c.maxEntries == maxEntries && c.ttl == ttl
  {
    if maxEntries <= 0 || ttl <= 0 {
      return null;
    }
    c := new ResultCache(maxEntries, ttl);
  }
}
