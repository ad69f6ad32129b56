/**
 What the refresh protocol guarantees in every interleaving: which readers are in the slots and when they
 are closed, which readers are never closed, and how far an answer in the cache can lag behind a refresh.
 */
module RefreshSafety {
  import opened Bytes
  import opened Refresh

  // -------------------------------------------------------------------------
  // Slots and closing
  // -------------------------------------------------------------------------

  /**
   In every reachable state slot `i` holds a reader of path `i`, no reader is in two slots, no reader has been
   closed twice, and a reader in a slot has been closed exactly when the provider was.
   */
  lemma SlotsFollowPaths(paths: seq<bytes>, actions: seq<Action>)
    requires Runs(paths, actions)
    ensures var p := After(paths, actions).pool;
            && |p.slots| == |paths|
            && (forall i :: 0 <= i < |paths| ==> p.PathOf(p.slots[i]) == paths[i])
            && (forall i, j :: 0 <= i < j < |paths| ==> p.slots[i] != p.slots[j])
            && (forall r :: p.Closes(r) <= 1)
            && (forall i :: 0 <= i < |paths| ==> p.Closes(p.slots[i]) == if p.open then 0 else 1)
  {
    hide After, Runs, RefreshersInv, LookupsInv, LogInv, ResetsInv, ReplacedInv;
    RunKeepsInv(paths, actions);
    var p := After(paths, actions).pool;
    forall i, j | 0 <= i < j < |paths|
      ensures p.slots[i] != p.slots[j]
    {
      assert p.place[p.slots[i]] == InSlot(i) && p.place[p.slots[j]] == InSlot(j);
    }
  }

  /** A refresh closes only readers that are in no slot, and each for the first time. */
  lemma RetiredReadersAreOut(paths: seq<bytes>, actions: seq<Action>, t: ThreadId, reader: ReaderId)
    requires Runs(paths, actions) && Enabled(After(paths, actions), CloseRetired(t, reader))
    ensures var p := After(paths, actions).pool; reader !in p.slots && p.Closes(reader) == 0
  {
    hide After, Runs, LookupsInv, LogInv, ResetsInv, ReplacedInv;
    RunKeepsInv(paths, actions);
    var s := After(paths, actions);
    RefresherOf(s, t);
    assert s.pool.place[reader] == Retired(t);
  }

  lemma OpenChangesNoSlot(s: State, t: ThreadId, reader: ReaderId, i: nat)
    requires SlotsInv(s.pool) && Enabled(s, Open(t, reader)) && i < |s.pool.slots|
    ensures var q := Apply(s, Open(t, reader)).pool;
            q.slots == s.pool.slots && q.Closes(s.pool.slots[i]) == s.pool.Closes(s.pool.slots[i])
  {
    assert s.pool.slots[i] in s.pool.place;
  }

  lemma CloseRetiredChangesNoSlot(s: State, t: ThreadId, reader: ReaderId, i: nat)
    requires SlotsInv(s.pool) && Enabled(s, CloseRetired(t, reader)) && i < |s.pool.slots|
    requires reader in s.pool.place && s.pool.place[reader] == Retired(t)
    ensures var q := Apply(s, CloseRetired(t, reader)).pool;
            q.slots == s.pool.slots && q.Closes(s.pool.slots[i]) == s.pool.Closes(s.pool.slots[i])
  {
    assert s.pool.place[s.pool.slots[i]] == InSlot(i);
  }

  /** Only a swap by a refresh changes what is in the slots, and only close closes a reader that stays in one. */
  lemma StepChangesSlots(s: State, a: Action, i: nat)
    requires Inv(s) && Enabled(s, a) && i < |s.pool.slots|
    ensures |Apply(s, a).pool.slots| == |s.pool.slots|
    ensures Apply(s, a).pool.slots[i] != s.pool.slots[i] ==>
            a.SwapSlot? && a.slot == i && s.lock == Some(a.t) && s.pool.open
    ensures Apply(s, a).pool.Closes(s.pool.slots[i]) != s.pool.Closes(s.pool.slots[i]) ==>
            a.CloseProvider? && s.pool.open
  {
    hide SlotsInv, ClosesInv, RefreshersInv, LookupsInv, LogInv, ResetsInv, ReplacedInv, LoadedInv, NotReset;
    match a
    case SwapSlot(t, slot) =>
      hide RetiredInv;
      RefresherOf(s, t);
    case Open(t, reader) =>
      hide RefresherInv, Pool.Opened, Pool.Closes;
      OpenChangesNoSlot(s, t, reader, i);
    case CloseRetired(t, reader) =>
      hide Pool.RetiredClosed, Pool.Closes;
      RefresherOf(s, t);
      CloseRetiredChangesNoSlot(s, t, reader, i);
    case _ =>
  }

  /** A lookup reads the slots in priority order, each holding a reader of that slot's path, and never gets stuck. */
  lemma LookupsReadInOrder(paths: seq<bytes>, actions: seq<Action>, t: ThreadId)
    requires Runs(paths, actions) && t in After(paths, actions).lookups
    ensures var s := After(paths, actions); var l := s.lookups[t];
            && l.limit in {0, |paths|} && |l.used| <= l.limit
            && (forall k :: 0 <= k < |l.used| ==> l.used[k].slot == k && s.pool.PathOf(l.used[k].reader) == paths[k])
            && (|l.used| < l.limit ==> Enabled(s, ReadSlot(t)))
  {
    hide After, Runs, RefreshersInv, LogInv, ResetsInv, ReplacedInv, ClosesInv;
    RunKeepsInv(paths, actions);
    LookupOf(After(paths, actions), t);
  }

  /**
   Nothing waits for anything but the lock: a lookup can read on or be stored at any time, and a refresh can take
   each of its next steps, except that beginning to swap waits until no other refresh is swapping.
   */
  lemma OnlyTheLockBlocks(paths: seq<bytes>, actions: seq<Action>, t: ThreadId)
    requires Runs(paths, actions)
    ensures var s := After(paths, actions);
            && CanBegin(s, t)
            && (t in s.lookups ==> CanFinish(s, t))
            && (t in s.refreshers ==> CanGoOn(s, t))
  {
    hide *;
    RunKeepsInv(paths, actions);
    var s := After(paths, actions);
    Beginning(s, t);
    if t in s.lookups {
      Finishing(s, t);
    }
    if t in s.refreshers {
      GoingOn(s, t);
    }
  }

  /** Lookups, refreshes and the close begin when the lock is free. */
  ghost predicate CanBegin(s: State, t: ThreadId)
  {
    && (Enabled(s, CloseProvider) <==> s.lock.None?)
    && (t !in s.lookups ==> forall key :: Enabled(s, BeginLookup(t, key)) <==> s.lock.None?)
    && (t !in s.refreshers ==> (Enabled(s, BeginRefresh(t)) <==> s.lock.None?))
  }

  /** A lookup has another slot to read, or its answer can be stored whenever it was made. */
  ghost predicate CanFinish(s: State, t: ThreadId)
  {
    || Enabled(s, ReadSlot(t))
    || forall failed, fields, found, at :: at <= s.now ==> Enabled(s, FinishLookup(t, failed, fields, found, at))
  }

  lemma Beginning(s: State, t: ThreadId)
    ensures CanBegin(s, t)
  {
  }

  lemma Finishing(s: State, t: ThreadId)
    requires Inv(s) && t in s.lookups
    ensures CanFinish(s, t)
  {
    hide PoolInv, RefreshersInv, LogInv, ResetsInv, UsedInv;
    LookupOf(s, t);
  }

  lemma GoingOn(s: State, t: ThreadId)
    requires Inv(s) && t in s.refreshers
    ensures CanGoOn(s, t)
  {
    hide LookupsInv, LogInv, ResetsInv, PoolInv, RefreshersInv, LoadedInv, RetiredInv, NotReset, SnapshotInv;
    RefresherOf(s, t);
  }

  /** The next steps a refresh can take. */
  ghost predicate CanGoOn(s: State, t: ThreadId)
    requires t in s.refreshers
  {
    match s.refreshers[t]
    case Opening(snapshot, next, loaded) =>
      if next < |snapshot| then
        Enabled(s, Unchanged(t)) && forall reader :: reader !in s.pool.pathOf ==> Enabled(s, Open(t, reader))
      else if loaded == map[] then Enabled(s, NothingToDo(t))
      else Enabled(s, BeginSwap(t)) <==> s.lock.None?
    case Swapping(todo, _) =>
      if todo == map[] then Enabled(s, EndSwap(t)) else forall slot :: slot in todo ==> Enabled(s, SwapSlot(t, slot))
    case Resetting(_) => Enabled(s, ResetCache(t))
    case Closing(retired) => forall reader :: reader in retired ==> Enabled(s, CloseRetired(t, reader))
  }

  // -------------------------------------------------------------------------
  // Which readers are never closed
  // -------------------------------------------------------------------------

  predicate Holds(r: Refresher, reader: ReaderId)
  {
    match r
    case Opening(_, _, loaded) => reader in loaded.Values
    case Swapping(todo, _) => reader in todo.Values
    case _ => false
  }

  ghost predicate OwnerInv(s: State, r: ReaderId)
    requires r in s.pool.place
  {
    match s.pool.place[r]
    case Waiting(t) => t in s.refreshers && Holds(s.refreshers[t], r)
    case Retired(t) =>
      && t in s.refreshers && !s.refreshers[t].Opening? && r in s.refreshers[t].retired
      && (s.refreshers[t].Closing? ==> r in s.pool.replaced && s.pool.replaced[r].reset.Some?)
    case Gone => r in s.pool.replaced && s.pool.replaced[r].reset.Some?
    case Dropped => !s.pool.open
    case InSlot(_) => true
  }

  /** A refresh keeps track of every reader that waits for it or was retired by it. */
  ghost predicate OwnersInv(s: State)
  {
    forall r :: r in s.pool.place ==> OwnerInv(s, r)
  }

  lemma InitOwners(paths: seq<bytes>)
    ensures OwnersInv(Init(paths))
  {
  }

  lemma NowHeld(loaded: map<nat, ReaderId>, next: nat, reader: ReaderId, other: ReaderId)
    requires next !in loaded && (other in loaded.Values || other == reader)
    ensures other in loaded[next := reader].Values
  {
    assert loaded[next := reader][next] == reader;
    if other != reader {
      var i :| i in loaded && loaded[i] == other;
      assert loaded[next := reader][i] == other;
    }
  }

  lemma OpenKeepsOwner(s: State, t: ThreadId, reader: ReaderId, r: ReaderId)
    requires OwnersInv(s) && Enabled(s, Open(t, reader)) && (r in s.pool.place || r == reader)
    requires s.refreshers[t].next !in s.refreshers[t].loaded
    ensures var after := Apply(s, Open(t, reader)); r in after.pool.place && OwnerInv(after, r)
  {
    var loaded := s.refreshers[t].loaded;
    assert r in s.pool.place ==> OwnerInv(s, r);
    if r in loaded.Values || r == reader {
      NowHeld(loaded, s.refreshers[t].next, reader, r);
    }
  }

  lemma OpenKeepsOwners(s: State, t: ThreadId, reader: ReaderId)
    requires Inv(s) && OwnersInv(s) && Enabled(s, Open(t, reader))
    ensures OwnersInv(Apply(s, Open(t, reader)))
  {
    hide LookupsInv, LogInv, ResetsInv, ReplacedInv, ClosesInv, OwnerInv;
    RefresherOf(s, t);
    var after := Apply(s, Open(t, reader));
    forall r | r in after.pool.place
      ensures OwnerInv(after, r)
    {
      OpenKeepsOwner(s, t, reader, r);
    }
  }

  lemma StillHeld(todo: map<nat, ReaderId>, slot: nat, other: ReaderId)
    requires slot in todo && other in todo.Values && other != todo[slot]
    ensures other in (todo - {slot}).Values
  {
    var i :| i in todo && todo[i] == other;
    assert i in todo - {slot} && (todo - {slot})[i] == other;
  }

  lemma SwapKeepsOwner(s: State, next: State, t: ThreadId, slot: nat, r: ReaderId)
    requires OwnersInv(s) && r in s.pool.place && slot < |s.pool.slots| && s.pool.slots[slot] in s.pool.place
    requires s.pool.place[s.pool.slots[slot]] == InSlot(slot)
    requires t in s.refreshers && s.refreshers[t].Swapping? && slot in s.refreshers[t].todo
    requires var incoming := s.refreshers[t].todo[slot];
             incoming in s.pool.place && s.pool.place[incoming] == Waiting(t)
    requires next.pool == s.pool.Swapped(slot, s.refreshers[t].todo[slot], t, s.step)
    requires next.refreshers ==
             s.refreshers[t := Swapping(s.refreshers[t].todo - {slot}, s.refreshers[t].retired + Evicted(s.pool, slot))]
    requires forall other :: other in s.pool.replaced ==> other in s.pool.place && !s.pool.place[other].InSlot?
    ensures r in next.pool.place && OwnerInv(next, r)
  {
    var todo := s.refreshers[t].todo;
    assert OwnerInv(s, r);
    if r in todo.Values && r != todo[slot] {
      StillHeld(todo, slot, r);
    }
  }

  lemma SwapSlotKeepsOwners(s: State, t: ThreadId, slot: nat)
    requires Inv(s) && OwnersInv(s) && Enabled(s, SwapSlot(t, slot))
    ensures OwnersInv(Apply(s, SwapSlot(t, slot)))
  {
    hide LookupsInv, LogInv, ResetsInv, ClosesInv, OwnerInv;
    RefresherOf(s, t);
    var after := Apply(s, SwapSlot(t, slot));
    assert s.pool.place[s.pool.slots[slot]] == InSlot(slot);
    forall r | r in after.pool.place
      ensures OwnerInv(after, r)
    {
      SwapKeepsOwner(s, after, t, slot, r);
    }
  }

  lemma ResetCacheKeepsOwner(s: State, t: ThreadId, r: ReaderId)
    requires OwnersInv(s) && Enabled(s, ResetCache(t)) && r in s.pool.place
    requires forall other :: other in s.refreshers[t].retired ==> other in s.pool.replaced
    ensures var after := Apply(s, ResetCache(t)); r in after.pool.place && OwnerInv(after, r)
  {
    assert OwnerInv(s, r);
  }

  lemma ResetCacheKeepsOwners(s: State, t: ThreadId)
    requires Inv(s) && OwnersInv(s) && Enabled(s, ResetCache(t))
    ensures OwnersInv(Apply(s, ResetCache(t)))
  {
    hide LookupsInv, LogInv, ResetsInv, ClosesInv, OwnerInv;
    RefresherOf(s, t);
    var after := Apply(s, ResetCache(t));
    forall r | r in after.pool.place
      ensures OwnerInv(after, r)
    {
      ResetCacheKeepsOwner(s, t, r);
    }
  }

  lemma StepKeepsOwners(s: State, a: Action)
    requires Inv(s) && OwnersInv(s) && Enabled(s, a)
    ensures OwnersInv(Apply(s, a))
  {
    hide LookupsInv, LogInv, ResetsInv, ClosesInv, ReplacedInv, RefreshersInv, SlotsInv;
    match a
    case Open(t, reader) => OpenKeepsOwners(s, t, reader);
    case SwapSlot(t, slot) => SwapSlotKeepsOwners(s, t, slot);
    case ResetCache(t) => ResetCacheKeepsOwners(s, t);
    case CloseRetired(t, reader) => RefresherOf(s, t);
    case _ =>
  }

  lemma {:induction false} RunKeepsOwners(paths: seq<bytes>, actions: seq<Action>)
    requires Runs(paths, actions)
    ensures OwnersInv(After(paths, actions))
    decreases |actions|
  {
    hide Inv, OwnersInv, Enabled, Apply;
    if actions == [] {
      InitOwners(paths);
    } else {
      var front := actions[..|actions| - 1];
      RunKeepsOwners(paths, front);
      RunKeepsInv(paths, front);
      StepKeepsOwners(After(paths, front), actions[|actions| - 1]);
    }
  }

  /** Every refresh that began has closed all it retired. */
  predicate Quiet(s: State)
  {
    forall t :: t in s.refreshers ==> s.refreshers[t].Closing? && s.refreshers[t].retired == {}
  }

  /**
   Once the refreshes are over, every reader ever opened is in its slot, or was overwritten and closed once, or
   was opened by a refresh that found the provider closed: only those are never closed.
   */
  lemma EveryReaderAccountedFor(paths: seq<bytes>, actions: seq<Action>, r: ReaderId)
    requires Runs(paths, actions) && Quiet(After(paths, actions)) && r in After(paths, actions).pool.pathOf
    ensures var p := After(paths, actions).pool;
            if r in p.slots then p.Closes(r) == if p.open then 0 else 1
            else p.Closes(r) == if r in p.replaced then 1 else 0
    ensures var p := After(paths, actions).pool; p.open ==> r in p.slots || r in p.replaced
  {
    hide After, Runs, LookupsInv, LogInv, ResetsInv, RefreshersInv;
    RunKeepsInv(paths, actions);
    RunKeepsOwners(paths, actions);
    var p := After(paths, actions).pool;
    assert r in p.place && OwnerInv(After(paths, actions), r);
    if r in p.slots {
      var i :| 0 <= i < |p.slots| && p.slots[i] == r;
      assert p.place[p.slots[i]] == InSlot(i);
    }
  }

  // -------------------------------------------------------------------------
  // How stale a cached answer can be
  // -------------------------------------------------------------------------

  function EventOf(c: CacheRecord): Cache.Event
  {
    match c
    case Stored(put, _, _, _) => put
    case Emptied(_) => Cache.Reset
  }

  /** The cache's own history. */
  function Events(log: seq<CacheRecord>): seq<Cache.Event>
  {
    seq(|log|, i requires 0 <= i < |log| => EventOf(log[i]))
  }

  /** The record at `i` was stored and the cache has not been emptied since. */
  ghost predicate StoredLast(log: seq<CacheRecord>, i: nat, put: Cache.Event)
  {
    i < |log| && log[i].Stored? && log[i].put == put && forall j :: i <= j < |log| ==> log[j].Stored?
  }

  lemma {:induction false} LatestPutIsStored(log: seq<CacheRecord>, key: bytes) returns (i: nat)
    requires forall j :: 0 <= j < |log| && log[j].Stored? ==> log[j].put.Put?
    requires Cache.LatestPut(Events(log), key).Some?
    ensures StoredLast(log, i, Cache.LatestPut(Events(log), key).value) && log[i].put.key == key
    decreases |log|
  {
    var n := |log| - 1;
    if log[n].Stored? && log[n].put.key == key {
      i := n;
    } else {
      assert Events(log)[..n] == Events(log[..n]);
      i := LatestPutIsStored(log[..n], key);
    }
  }

  lemma {:induction false} LastEmptiedBefore(log: seq<CacheRecord>, i: nat)
    requires i < |log| && forall j :: i <= j < |log| ==> log[j].Stored?
    requires forall j, k :: 0 <= j < k < |log| ==> log[j].step < log[k].step
    ensures LastEmptied(log) < log[i].step
    decreases |log|
  {
    var front := log[..|log| - 1];
    if i < |front| {
      LastEmptiedBefore(front, i);
    } else {
      LastEmptiedAmong(front);
    }
  }

  /** The reader is still in the slot it was read from. */
  predicate Current(p: Pool, u: Use)
  {
    u.slot < |p.slots| && p.slots[u.slot] == u.reader
  }

  /** The reader was overwritten, but the cache has not been emptied for that yet. */
  predicate Pending(p: Pool, u: Use)
  {
    u.reader in p.replaced && p.replaced[u.reader].reset.None?
  }

  /**
   The lookup read the slot before its reader was overwritten, and its answer was stored after the cache was
   emptied for that.
   */
  predicate Straddles(p: Pool, c: CacheRecord, u: Use)
  {
    && c.Stored? && u.reader in p.replaced && p.replaced[u.reader].reset.Some?
    && c.begun < u.step < p.replaced[u.reader].step < p.replaced[u.reader].reset.value < c.step
  }

  /**
   The lookup read the slot before its reader was overwritten, and no reset for that came after its answer was
   stored.
   */
  predicate Overtaken(p: Pool, c: CacheRecord, u: Use)
  {
    && c.Stored? && u.reader in p.replaced && c.begun < u.step < p.replaced[u.reader].step
    && (p.replaced[u.reader].reset.None? || p.replaced[u.reader].reset.value < c.step)
  }

  /** Where the answer in a hit comes from: a stored lookup that read every slot there was, in order. */
  ghost predicate HitFrom(s: State, key: bytes, hit: Cache.CacheEntry, ttl: nat, c: CacheRecord)
  {
    && c.Stored? && c.put.Put? && c.put.key == key && c.put.fields == hit.fields && c.put.found == hit.found
    && s.now <= c.put.now + ttl && c.put.now <= s.now
    && |c.used| in {0, |s.pool.slots|}
    && forall k :: 0 <= k < |c.used| ==> c.used[k].slot == k
  }

  /** An overwritten reader is in no slot. */
  lemma ReplacedIsNotCurrent(p: Pool, step: nat, u: Use)
    requires PoolInv(p, step) && u.reader in p.replaced
    ensures !Current(p, u)
  {
    if u.slot < |p.slots| {
      assert p.place[p.slots[u.slot]] == InSlot(u.slot);
    }
  }

  lemma StaleUseIff(s: State, c: CacheRecord, k: nat)
    requires PoolInv(s.pool, s.step) && ResetsInv(s.pool, LastEmptied(s.log))
    requires RecordInv(s.pool, s.step, s.now, c) && c.Stored? && k < |c.used| && LastEmptied(s.log) < c.step
    ensures !Current(s.pool, c.used[k]) <==> Overtaken(s.pool, c, c.used[k])
    ensures Overtaken(s.pool, c, c.used[k]) <==> Pending(s.pool, c.used[k]) || Straddles(s.pool, c, c.used[k])
  {
    hide LastEmptied, PoolInv;
    assert UseInv(s.pool, c.step, c.used[k]);
    if c.used[k].reader in s.pool.replaced {
      ReplacedIsNotCurrent(s.pool, s.step, c.used[k]);
    }
  }

  /** The hit of a key at the end of a run. */
  function HitAt(s: State, maxEntries: nat, ttl: nat, key: bytes): Option<Cache.CacheEntry>
  {
    Cache.Run(Cache.EMPTY, maxEntries, ttl, Events(s.log)).Get(key, s.now)
  }

  /**
   Exactly how stale a hit can be. However many refreshes ran, a hit is no older than the time to live and
   repeats a lookup that read every slot in order; and one of its readers is no longer in its slot if and only
   if it was overwritten after the lookup read it and the reset for that is still to come or came before the
   answer was stored.
   */
  lemma StaleHitIff(paths: seq<bytes>, actions: seq<Action>, maxEntries: nat, ttl: nat, key: bytes) returns (i: nat)
    requires Runs(paths, actions) && HitAt(After(paths, actions), maxEntries, ttl, key).Some?
    ensures var s := After(paths, actions);
            && i < |s.log| && HitFrom(s, key, HitAt(s, maxEntries, ttl, key).value, ttl, s.log[i])
            && forall k :: 0 <= k < |s.log[i].used| ==>
                 var u := s.log[i].used[k];
                 && (!Current(s.pool, u) <==> Overtaken(s.pool, s.log[i], u))
                 && (Overtaken(s.pool, s.log[i], u) <==> Pending(s.pool, u) || Straddles(s.pool, s.log[i], u))
  {
    hide After, Runs, PoolInv, RefreshersInv, LookupsInv, ResetsInv, UseInv, LastEmptied, Cache.Run, Current, Pending,
         Straddles, Overtaken;
    RunKeepsInv(paths, actions);
    var s := After(paths, actions);
    Cache.HitIsLatestPut(maxEntries, ttl, Events(s.log), key, s.now);
    assert forall j :: 0 <= j < |s.log| ==> RecordInv(s.pool, s.step, s.now, s.log[j]);
    i := LatestPutIsStored(s.log, key);
    LastEmptiedBefore(s.log, i);
    forall k | 0 <= k < |s.log[i].used|
      ensures var u := s.log[i].used[k];
              && (!Current(s.pool, u) <==> Overtaken(s.pool, s.log[i], u))
              && (Overtaken(s.pool, s.log[i], u) <==> Pending(s.pool, u) || Straddles(s.pool, s.log[i], u))
    {
      StaleUseIff(s, s.log[i], k);
    }
  }

  /** No refresh is between its swaps and its reset. */
  ghost predicate AllReset(s: State)
  {
    forall t :: t in s.refreshers ==> s.refreshers[t].Opening? || s.refreshers[t].Closing?
  }

  /** Then the cache has been emptied for every overwritten reader. */
  lemma NothingPending(s: State, u: Use)
    requires Inv(s) && OwnersInv(s) && AllReset(s)
    ensures !Pending(s.pool, u)
  {
    hide SlotsInv, ClosesInv, RefreshersInv, LookupsInv, LogInv, ResetsInv;
    if u.reader in s.pool.replaced {
      assert u.reader in s.pool.place && OwnerInv(s, u.reader);
    }
  }

  /**
   With no refresh between its swaps and its reset, a hit comes from the readers in the slots if and only if
   its lookup straddles no refresh.
   */
  lemma HitIsCurrentIff(paths: seq<bytes>, actions: seq<Action>, maxEntries: nat, ttl: nat, key: bytes) returns (i: nat)
    requires Runs(paths, actions) && AllReset(After(paths, actions))
    requires HitAt(After(paths, actions), maxEntries, ttl, key).Some?
    ensures var s := After(paths, actions);
            && i < |s.log| && HitFrom(s, key, HitAt(s, maxEntries, ttl, key).value, ttl, s.log[i])
            && ((forall k :: 0 <= k < |s.log[i].used| ==> Current(s.pool, s.log[i].used[k])) <==>
                (forall k :: 0 <= k < |s.log[i].used| ==> !Straddles(s.pool, s.log[i], s.log[i].used[k])))
  {
    hide After, Runs, Inv, OwnersInv, AllReset, HitAt, Current, Pending, Straddles, Overtaken;
    i := StaleHitIff(paths, actions, maxEntries, ttl, key);
    RunKeepsInv(paths, actions);
    RunKeepsOwners(paths, actions);
    var s := After(paths, actions);
    forall k | 0 <= k < |s.log[i].used|
      ensures Current(s.pool, s.log[i].used[k]) <==> !Straddles(s.pool, s.log[i], s.log[i].used[k])
    {
      NothingPending(s, s.log[i].used[k]);
    }
  }

  /** A stored lookup was under way from before a reader was overwritten until after the cache was emptied for that. */
  predicate Spans(p: Pool, c: CacheRecord, r: ReaderId)
  {
    && c.Stored? && r in p.replaced && p.replaced[r].reset.Some?
    && c.begun < p.replaced[r].step && p.replaced[r].reset.value < c.step
  }

  ghost predicate NoneSpans(s: State)
  {
    forall i, r :: 0 <= i < |s.log| && r in s.pool.replaced ==> !Spans(s.pool, s.log[i], r)
  }

  /**
   With no refresh between its swaps and its reset, and no lookup in flight across one, every hit comes from
   the readers in the slots.
   */
  lemma HitsAreCurrent(paths: seq<bytes>, actions: seq<Action>, maxEntries: nat, ttl: nat, key: bytes) returns (i: nat)
    requires Runs(paths, actions) && AllReset(After(paths, actions)) && NoneSpans(After(paths, actions))
    requires HitAt(After(paths, actions), maxEntries, ttl, key).Some?
    ensures var s := After(paths, actions);
            && i < |s.log| && HitFrom(s, key, HitAt(s, maxEntries, ttl, key).value, ttl, s.log[i])
            && forall k :: 0 <= k < |s.log[i].used| ==> Current(s.pool, s.log[i].used[k])
  {
    hide After, Runs, AllReset, HitAt, Current;
    i := HitIsCurrentIff(paths, actions, maxEntries, ttl, key);
    var s := After(paths, actions);
    forall k | 0 <= k < |s.log[i].used|
      ensures !Straddles(s.pool, s.log[i], s.log[i].used[k])
    {
      var u := s.log[i].used[k];
      assert u.reader in s.pool.replaced ==> !Spans(s.pool, s.log[i], u.reader);
    }
  }

  // -------------------------------------------------------------------------
  // What does not hold
  // -------------------------------------------------------------------------

  lemma Start(paths: seq<bytes>)
    ensures Runs(paths, []) && After(paths, []) == Init(paths)
  {
  }

  lemma Extend(paths: seq<bytes>, actions: seq<Action>, a: Action)
    requires Runs(paths, actions) && Enabled(After(paths, actions), a)
    ensures Runs(paths, actions + [a]) && After(paths, actions + [a]) == Apply(After(paths, actions), a)
  {
    hide Enabled, Apply;
    assert (actions + [a])[..|actions|] == actions;
  }

  /** A refresh of a provider with one database opens its new file. */
  lemma OneLoads(paths: seq<bytes>, actions: seq<Action>, t: ThreadId, reader: ReaderId) returns (longer: seq<Action>)
    requires Runs(paths, actions)
    requires var s := After(paths, actions);
             s.lock.None? && s.pool.open && |s.pool.slots| == 1 && t !in s.refreshers && reader !in s.pool.pathOf
    ensures Runs(paths, longer)
    ensures var s := After(paths, actions);
            After(paths, longer) ==
            s.(step := s.step + 2, refreshers := s.refreshers[t := Opening(s.pool.slots, 1, map[0 := reader])],
                                       pool := s.pool.Opened(reader, s.pool.PathOf(s.pool.slots[0]), t))
  {
    hide After, Runs;
    Extend(paths, actions, BeginRefresh(t));
    var begun := actions + [BeginRefresh(t)];
    Extend(paths, begun, Open(t, reader));
    longer := begun + [Open(t, reader)];
    var s := After(paths, actions);
    assert s.refreshers[t := Opening(s.pool.slots, 0, map[])][t := Opening(s.pool.slots, 1, map[0 := reader])]
        == s.refreshers[t := Opening(s.pool.slots, 1, map[0 := reader])];
  }

  lemma OneSwaps(paths: seq<bytes>, actions: seq<Action>, t: ThreadId, snapshot: seq<ReaderId>, reader: ReaderId)
    returns (longer: seq<Action>)
    requires Runs(paths, actions)
    requires var s := After(paths, actions);
             s.lock.None? && |snapshot| == 1 && t in s.refreshers &&
             s.refreshers[t] == Opening(snapshot, 1, map[0 := reader])
    ensures Runs(paths, longer)
    ensures var s := After(paths, actions);
            After(paths, longer) == s.(step := s.step + 2, lock := Some(t),
                                       refreshers := s.refreshers[t := Swapping(map[], Evicted(s.pool, 0))],
                                       pool := s.pool.Swapped(0, reader, t, s.step + 1))
  {
    hide After, Runs, Pool.Swapped, Evicted;
    var s := After(paths, actions);
    assert 0 in map[0 := reader];
    Extend(paths, actions, BeginSwap(t));
    var begun := actions + [BeginSwap(t)];
    Extend(paths, begun, SwapSlot(t, 0));
    longer := begun + [SwapSlot(t, 0)];
    assert map[0 := reader] - {0} == map[];
    assert {} + Evicted(s.pool, 0) == Evicted(s.pool, 0);
    assert After(paths, longer).refreshers == s.refreshers[t := Swapping(map[], Evicted(s.pool, 0))];
  }

  lemma OneResets(paths: seq<bytes>, actions: seq<Action>, t: ThreadId, retired: set<ReaderId>)
    returns (longer: seq<Action>)
    requires Runs(paths, actions)
    requires var s := After(paths, actions); t in s.refreshers && s.refreshers[t] == Swapping(map[], retired)
    ensures Runs(paths, longer)
    ensures var s := After(paths, actions);
            After(paths, longer) ==
            s.(step := s.step + 2, lock := None, refreshers := s.refreshers[t := Closing(retired)],
                                       pool := s.pool.CacheReset(retired, s.step + 1),
                                       log := s.log + [Emptied(s.step + 1)])
  {
    hide After, Runs, Pool.CacheReset;
    Extend(paths, actions, EndSwap(t));
    var ended := actions + [EndSwap(t)];
    Extend(paths, ended, ResetCache(t));
    longer := ended + [ResetCache(t)];
    assert After(paths, longer).refreshers == After(paths, actions).refreshers[t := Closing(retired)];
  }

  /** It then swaps the new reader in, if the slot is still there, and empties the cache. */
  lemma OneInstalls(paths: seq<bytes>, actions: seq<Action>, t: ThreadId, snapshot: seq<ReaderId>, reader: ReaderId)
    returns (longer: seq<Action>)
    requires Runs(paths, actions)
    requires var s := After(paths, actions);
             s.lock.None? && |snapshot| == 1 && t in s.refreshers &&
             s.refreshers[t] == Opening(snapshot, 1, map[0 := reader])
    ensures Runs(paths, longer)
    ensures var s := After(paths, actions); var evicted := Evicted(s.pool, 0);
            After(paths, longer) == s.(step := s.step + 4, refreshers := s.refreshers[t := Closing(evicted)],
                                       pool := s.pool.Swapped(0, reader, t, s.step + 1).CacheReset(evicted, s.step + 3),
                                       log := s.log + [Emptied(s.step + 3)])
  {
    hide After, Runs, Pool.Swapped, Pool.CacheReset, Evicted;
    var s := After(paths, actions);
    longer := OneSwaps(paths, actions, t, snapshot, reader);
    longer := OneResets(paths, longer, t, Evicted(s.pool, 0));
    assert After(paths, longer).refreshers == s.refreshers[t := Closing(Evicted(s.pool, 0))];
  }

  /** A lookup of a provider with one database reads its slot. */
  lemma OneReads(path: bytes, key: bytes) returns (actions: seq<Action>)
    ensures Runs([path], actions)
    ensures var s := Init([path]);
            After([path], actions) == s.(step := 2, lookups := map[1 := Lookup(key, 0, 1, [Use(0, 0, 1)])])
  {
    hide After, Runs;
    Start([path]);
    Extend([path], [], BeginLookup(1, key));
    Extend([path], [] + [BeginLookup(1, key)], ReadSlot(1));
    actions := [] + [BeginLookup(1, key)] + [ReadSlot(1)];
    var used: seq<Use> := [Use(0, 0, 1)];
    assert [] + used == used;
    assert After([path], actions).lookups == map[1 := Lookup(key, 0, 1, used)];
  }

  lemma StillServed(log: seq<CacheRecord>, maxEntries: nat, ttl: nat)
    requires |log| == 2 && log[0].Emptied? && log[1].Stored? && log[1].put.Put?
    ensures Cache.Run(Cache.EMPTY, maxEntries, ttl, Events(log)).Get(log[1].put.key, log[1].put.now).Some?
  {
    assert Events(log)[..1] == [Cache.Reset] && Events(log)[..0] == [];
    assert Cache.Run(Cache.EMPTY, maxEntries, ttl, Events(log)[..1]) == Cache.EMPTY;
  }

  /**
   The cache can serve an answer from a replaced reader after the reset meant to drop it. A lookup reads the
   only slot, a refresh then overwrites it and empties the cache, and only then is the lookup's answer stored.
   */
  lemma StaleAnswerAfterReset(path: bytes, key: bytes, fields: map<bytes, bytes>) returns (actions: seq<Action>)
    ensures Runs([path], actions)
    ensures var s := After([path], actions);
            && |s.log| == 2 && s.log[0].Emptied? && s.log[1].Stored? && |s.log[1].used| == 1
            && s.log[1].put == Cache.Put(key, fields, true, 0)
            && !Current(s.pool, s.log[1].used[0]) && Straddles(s.pool, s.log[1], s.log[1].used[0])
            && forall maxEntries: nat, ttl: nat :: HitAt(s, maxEntries, ttl, key).Some?
  {
    hide After, Runs, Cache.Run, Events;
    actions := OneReads(path, key);
    actions := OneLoads([path], actions, 2, 1);
    actions := OneInstalls([path], actions, 2, [0], 1);
    Extend([path], actions, FinishLookup(1, false, fields, true, 0));
    actions := actions + [FinishLookup(1, false, fields, true, 0)];
    var s := After([path], actions);
    forall maxEntries: nat, ttl: nat
      ensures HitAt(s, maxEntries, ttl, key).Some?
    {
      StillServed(s.log, maxEntries, ttl);
    }
  }

  /** A reader opened by a refresh is never closed when the provider was closed before the swap. */
  lemma FreshReaderLeaks(path: bytes) returns (actions: seq<Action>)
    ensures Runs([path], actions)
    ensures var s := After([path], actions); Quiet(s) && 1 in s.pool.pathOf && s.pool.Closes(1) == 0 && !s.pool.open
  {
    hide After, Runs;
    Start([path]);
    actions := OneLoads([path], [], 2, 1);
    Extend([path], actions, CloseProvider);
    actions := OneInstalls([path], actions + [CloseProvider], 2, [0], 1);
  }

  // -------------------------------------------------------------------------
  // Exactly which fresh readers are never closed
  // -------------------------------------------------------------------------

  /** The reader has been in a slot. */
  predicate Installed(p: Pool, r: ReaderId)
  {
    r in p.place && (p.place[r].InSlot? || p.place[r].Retired? || p.place[r].Gone?)
  }

  predicate IsDropped(p: Pool, r: ReaderId)
  {
    r in p.place && p.place[r].Dropped?
  }

  lemma SwapKeepsFate(p: Pool, slot: nat, reader: ReaderId, t: ThreadId, step: nat, r: ReaderId)
    requires SlotsInv(p) && CanSwap(p, slot, reader, t)
    ensures var q := p.Swapped(slot, reader, t, step);
            (IsDropped(p, r) ==> IsDropped(q, r)) && (Installed(p, r) ==> Installed(q, r))
  {
    assert p.open && slot < |p.slots| ==> p.place[p.slots[slot]] == InSlot(slot);
  }

  lemma OpenKeepsFate(p: Pool, reader: ReaderId, path: bytes, t: ThreadId, r: ReaderId)
    requires SlotsInv(p) && reader !in p.pathOf
    ensures var q := p.Opened(reader, path, t);
            (IsDropped(p, r) ==> IsDropped(q, r)) && (Installed(p, r) ==> Installed(q, r))
  {
  }

  lemma CloseKeepsFate(p: Pool, reader: ReaderId, t: ThreadId, r: ReaderId)
    requires reader in p.place && p.place[reader] == Retired(t)
    ensures var q := p.RetiredClosed(reader);
            (IsDropped(p, r) ==> IsDropped(q, r)) && (Installed(p, r) ==> Installed(q, r))
  {
  }

  /** What became of a swapped reader stays so. */
  lemma StepKeepsFate(s: State, a: Action, r: ReaderId)
    requires Inv(s) && Enabled(s, a)
    ensures IsDropped(s.pool, r) ==> IsDropped(Apply(s, a).pool, r)
    ensures Installed(s.pool, r) ==> Installed(Apply(s, a).pool, r)
  {
    hide SlotsInv, ClosesInv, LookupsInv, LogInv, ResetsInv, ReplacedInv, RefreshersInv, LoadedInv, NotReset, CanSwap;
    var p := s.pool;
    match a
    case SwapSlot(t, slot) =>
      hide IsDropped, Installed, Pool.Swapped, RetiredInv;
      RefresherOf(s, t);
      TodoShrinks(p, t, s.refreshers[t].todo, slot, s.step);
      SwapKeepsFate(p, slot, s.refreshers[t].todo[slot], t, s.step, r);
    case Open(t, reader) =>
      hide IsDropped, Installed, Pool.Opened, RetiredInv;
      RefresherOf(s, t);
      var o := s.refreshers[t];
      OpenKeepsFate(p, reader, p.PathOf(o.snapshot[o.next]), t, r);
    case CloseRetired(t, reader) =>
      hide IsDropped, Installed, Pool.RetiredClosed;
      RefresherOf(s, t);
      CloseKeepsFate(p, reader, t, r);
    case _ =>
  }

  lemma SwapDecidesFate(s: State, t: ThreadId, slot: nat)
    requires Inv(s) && Enabled(s, SwapSlot(t, slot))
    ensures var q := Apply(s, SwapSlot(t, slot)).pool; var r := s.refreshers[t].todo[slot];
            if s.pool.open then Installed(q, r) else IsDropped(q, r)
  {
    hide ClosesInv, LookupsInv, LogInv, ResetsInv, ReplacedInv;
    RefresherOf(s, t);
  }

  lemma {:induction false} FateAtEnd(paths: seq<bytes>, before: seq<Action>, t: ThreadId, slot: nat, rest: seq<Action>)
    requires Runs(paths, before + [SwapSlot(t, slot)] + rest)
    ensures Runs(paths, before) && Enabled(After(paths, before), SwapSlot(t, slot))
    ensures var s := After(paths, before); var r := s.refreshers[t].todo[slot];
            var q := After(paths, before + [SwapSlot(t, slot)] + rest).pool;
            if s.pool.open then Installed(q, r) else IsDropped(q, r)
    decreases |rest|
  {
    hide Enabled, Apply, Inv, Installed, IsDropped;
    var all := before + [SwapSlot(t, slot)] + rest;
    if rest == [] {
      assert all[..|all| - 1] == before;
      RunKeepsInv(paths, before);
      SwapDecidesFate(After(paths, before), t, slot);
    } else {
      var front := rest[..|rest| - 1];
      assert all[..|all| - 1] == before + [SwapSlot(t, slot)] + front && all[|all| - 1] == rest[|rest| - 1];
      FateAtEnd(paths, before, t, slot, front);
      var s := After(paths, before + [SwapSlot(t, slot)] + front);
      RunKeepsInv(paths, before + [SwapSlot(t, slot)] + front);
      SwapIsKnown(After(paths, before), t, slot);
      StepKeepsFate(s, rest[|rest| - 1], After(paths, before).refreshers[t].todo[slot]);
    }
  }

  lemma SwapIsKnown(s: State, t: ThreadId, slot: nat)
    requires Enabled(s, SwapSlot(t, slot))
    ensures t in s.refreshers && s.refreshers[t].Swapping? && slot in s.refreshers[t].todo
  {
  }

  /**
   The reader that a refresh swaps in is leaked, out of every slot and never closed, in every later state in
   which the refreshes are over, if and only if the provider was closed at the swap. Once the provider is
   closed, never closed alone says so.
   */
  lemma LeakedIff(paths: seq<bytes>, before: seq<Action>, t: ThreadId, slot: nat, rest: seq<Action>)
    requires Runs(paths, before + [SwapSlot(t, slot)] + rest) &&
             Quiet(After(paths, before + [SwapSlot(t, slot)] + rest))
    ensures Runs(paths, before) && Enabled(After(paths, before), SwapSlot(t, slot))
    ensures var s := After(paths, before); var r := s.refreshers[t].todo[slot];
            var q := After(paths, before + [SwapSlot(t, slot)] + rest).pool;
            && (r !in q.slots && q.Closes(r) == 0 <==> !s.pool.open)
            && (!q.open ==> (q.Closes(r) == 0 <==> !s.pool.open))
  {
    hide After, Runs, Enabled, Inv, OwnersInv, Quiet, Installed, IsDropped;
    var all := before + [SwapSlot(t, slot)] + rest;
    FateAtEnd(paths, before, t, slot, rest);
    SwapIsKnown(After(paths, before), t, slot);
    RunKeepsInv(paths, all);
    RunKeepsOwners(paths, all);
    FateWhenQuiet(After(paths, all), After(paths, before).refreshers[t].todo[slot]);
  }

  lemma FateWhenQuiet(s: State, r: ReaderId)
    requires Inv(s) && OwnersInv(s) && Quiet(s)
    ensures Installed(s.pool, r) ==>
            (r in s.pool.slots && s.pool.Closes(r) == if s.pool.open then 0 else 1) || s.pool.Closes(r) == 1
    ensures IsDropped(s.pool, r) ==> r !in s.pool.slots && s.pool.Closes(r) == 0
  {
    hide RefreshersInv, LookupsInv, LogInv, ResetsInv, ReplacedInv;
    if r in s.pool.place {
      assert OwnerInv(s, r);
    }
    if r in s.pool.slots {
      var i :| 0 <= i < |s.pool.slots| && s.pool.slots[i] == r;
      assert s.pool.place[s.pool.slots[i]] == InSlot(i);
    }
  }

  // -------------------------------------------------------------------------
  // The order of the swaps
  // -------------------------------------------------------------------------

  /** The slots with some of them replaced. */
  function Overlaid<T>(slots: seq<T>, replacements: map<nat, T>): seq<T>
  {
    seq(|slots|, i requires 0 <= i < |slots| => if i in replacements then replacements[i] else slots[i])
  }

  lemma OverlaidAt<T>(slots: seq<T>, replacements: map<nat, T>, i: nat)
    requires i < |slots|
    ensures |Overlaid(slots, replacements)| == |slots|
    ensures Overlaid(slots, replacements)[i] == if i in replacements then replacements[i] else slots[i]
  {
  }

  /** What the replaced slots held. */
  function Covered(slots: seq<ReaderId>, replacements: map<nat, ReaderId>): set<ReaderId>
  {
    set i | i in replacements && i < |slots| :: slots[i]
  }

  /** Each slot to swap, once. */
  ghost predicate Enumerates(order: seq<nat>, todo: map<nat, ReaderId>)
  {
    (forall i :: i in todo <==> i in order) && forall i, j :: 0 <= i < j < |order| ==> order[i] != order[j]
  }

  predicate CanSwapAll(s: State, t: ThreadId, todo: map<nat, ReaderId>)
  {
    s.pool.open && t in s.refreshers && s.refreshers[t].Swapping? && s.refreshers[t].todo == todo
  }

  /** Swaps in the given order. */
  ghost function SwapAll(s: State, t: ThreadId, order: seq<nat>, todo: map<nat, ReaderId>): State
    requires CanSwapAll(s, t, todo) && Enumerates(order, todo)
    decreases |order|
  {
    if order == [] then s
    else
      assert order[0] in order && forall i :: i in order[1..] ==> i in order && i != order[0];
      SwapAll(Apply(s, SwapSlot(t, order[0])), t, order[1..], todo - {order[0]})
  }

  lemma OneSwap(s: State, t: ThreadId, i: nat, todo: map<nat, ReaderId>)
    requires CanSwapAll(s, t, todo) && i in todo && i < |s.pool.slots|
    ensures var next := Apply(s, SwapSlot(t, i));
            && next.pool.slots == s.pool.slots[i := todo[i]] && CanSwapAll(next, t, todo - {i})
            && next.refreshers[t].retired == s.refreshers[t].retired + {s.pool.slots[i]}
  {
  }

  lemma NothingOverlaid(slots: seq<ReaderId>)
    ensures Overlaid(slots, map[]) == slots && Covered(slots, map[]) == {}
  {
  }

  lemma OverlaidLater(slots: seq<ReaderId>, todo: map<nat, ReaderId>, i: nat)
    requires i in todo && forall j :: j in todo ==> j < |slots|
    ensures var next := slots[i := todo[i]]; var rest := todo - {i};
            && Overlaid(next, rest) == Overlaid(slots, todo)
            && Covered(slots, todo) == {slots[i]} + Covered(next, rest)
  {
    var next, rest := slots[i := todo[i]], todo - {i};
    assert Overlaid(next, rest) == Overlaid(slots, todo);
    var all, later := Covered(slots, todo), Covered(next, rest);
    assert forall j :: j in rest ==> next[j] == slots[j];
    forall r | r in all
      ensures r in {slots[i]} + later
    {
      var j :| j in todo && slots[j] == r;
      assert j != i ==> j in rest && next[j] == r;
    }
  }

  /** The map of replacements can be walked in any order: the slots, and the readers retired, come out the same. */
  lemma {:induction false} SwapOrderDoesNotMatter(s: State, t: ThreadId, order: seq<nat>, todo: map<nat, ReaderId>)
    requires CanSwapAll(s, t, todo) && Enumerates(order, todo) && forall i :: i in todo ==> i < |s.pool.slots|
    ensures var after := SwapAll(s, t, order, todo);
            && after.pool.slots == Overlaid(s.pool.slots, todo)
            && t in after.refreshers
            && after.refreshers[t] == Swapping(map[], s.refreshers[t].retired + Covered(s.pool.slots, todo))
    decreases |order|
  {
    hide Apply, Overlaid, Covered;
    if order == [] {
      NothingOverlaid(s.pool.slots);
      assert todo == map[];
    } else {
      var i := order[0];
      assert i in order && forall j :: j in order[1..] ==> j in order && j != i;
      var next := Apply(s, SwapSlot(t, i));
      var rest := todo - {i};
      OneSwap(s, t, i, todo);
      SwapOrderDoesNotMatter(next, t, order[1..], rest);
      OverlaidLater(s.pool.slots, todo, i);
    }
  }
}
