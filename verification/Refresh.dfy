/**
 The refresh protocol, as interleaved steps. Lookups capture the slice of readers under the lock and
 then read its slots one at a time without it; refreshes overwrite slots of the same backing array one
 at a time under the lock, empty the cache, and close the replaced readers later; close stops it all.
 Any number of lookups and refreshes run at once.
 */
module Refresh {
  import opened Bytes
  import Cache

  type ReaderId = nat
  type ThreadId = nat

  // -------------------------------------------------------------------------
  // The readers
  // -------------------------------------------------------------------------

  // Where an opened reader is: bookkeeping for the invariant, not part of the provider.
  datatype Whereabouts = InSlot(slot: nat) | Waiting(owner: ThreadId) | Retired(owner: ThreadId) | Gone | Dropped

  // When a reader was overwritten, and when the cache was emptied because of it.
  datatype Replacement = Replacement(step: nat, reset: Option<nat>)

  /** The provider's backing array of readers, and what became of every reader ever opened. */
  datatype Pool = Pool(
    paths: seq<bytes>,
    slots: seq<ReaderId>,
    open: bool,
    pathOf: map<ReaderId, bytes>,
    closes: map<ReaderId, nat>,
    place: map<ReaderId, Whereabouts>,
    replaced: map<ReaderId, Replacement>)
  {
    function PathOf(r: ReaderId): bytes
    {
      if r in pathOf then pathOf[r] else []
    }

    function Closes(r: ReaderId): nat
    {
      if r in closes then closes[r] else 0
    }

    function Opened(reader: ReaderId, path: bytes, t: ThreadId): Pool
    {
      this.(pathOf := pathOf[reader := path], closes := closes[reader := 0], place := place[reader := Waiting(t)])
    }

    /** Overwrites a slot that is there; otherwise the new reader is dropped without being closed. */
    function Swapped(slot: nat, reader: ReaderId, t: ThreadId, step: nat): Pool
    {
      if open && slot < |slots| then
        this.(slots := slots[slot := reader],
              place := place[reader := InSlot(slot)][slots[slot] := Retired(t)],
              replaced := replaced[slots[slot] := Replacement(step, None)])
      else
        this.(place := place[reader := Dropped])
    }

    function CacheReset(retired: set<ReaderId>, step: nat): Pool
    {
      this.(replaced := map r | r in replaced ::
              if r in retired then Replacement(replaced[r].step, Some(step)) else replaced[r])
    }

    function RetiredClosed(reader: ReaderId): Pool
    {
      this.(closes := closes[reader := Closes(reader) + 1], place := place[reader := Gone])
    }

    /** Closes every reader in a slot; a second close finds no readers. */
    function Shut(): Pool
    {
      this.(open := false, closes := map r | r in closes :: if open && r in slots then closes[r] + 1 else closes[r])
    }
  }

  /** A new provider: slot `i` holds reader `i`, opened from path `i`. */
  function NewPool(paths: seq<bytes>): Pool
  {
    var ids := seq(|paths|, i => i);
    Pool(paths, ids, true, map r | r in ids :: paths[r], map r | r in ids :: 0, map r | r in ids :: InSlot(r), map[])
  }

  // -------------------------------------------------------------------------
  // The steps
  // -------------------------------------------------------------------------

  // One slot read by a lookup: which slot, the reader found there, and when.
  datatype Use = Use(slot: nat, reader: ReaderId, step: nat)

  // A lookup that captured `limit` slots; it has read as many as `used` has elements.
  datatype Lookup = Lookup(key: bytes, begun: nat, limit: nat, used: seq<Use>)

  datatype Refresher =
    | Opening(snapshot: seq<ReaderId>, next: nat, loaded: map<nat, ReaderId>)
    | Swapping(todo: map<nat, ReaderId>, retired: set<ReaderId>)
    | Resetting(retired: set<ReaderId>)
    | Closing(retired: set<ReaderId>)

  // What happened to the cache; a stored answer remembers the lookup it came from.
  datatype CacheRecord =
    | Stored(put: Cache.Event, begun: nat, used: seq<Use>, step: nat)
    | Emptied(step: nat)

  datatype State = State(
    step: nat,
    now: int,
    pool: Pool,
    lock: Option<ThreadId>,
    lookups: map<ThreadId, Lookup>,
    refreshers: map<ThreadId, Refresher>,
    log: seq<CacheRecord>)

  function Init(paths: seq<bytes>): State
  {
    State(0, 0, NewPool(paths), None, map[], map[], [])
  }

  datatype Action =
    | Tick(elapsed: nat)
    | BeginLookup(t: ThreadId, key: bytes)
    | ReadSlot(t: ThreadId)
    | FinishLookup(t: ThreadId, failed: bool, fields: map<bytes, bytes>, found: bool, at: int)
    | BeginRefresh(t: ThreadId)
    | Unchanged(t: ThreadId)                      // the file is unchanged, or would not open
    | Open(t: ThreadId, reader: ReaderId)
    | NothingToDo(t: ThreadId)
    | BeginSwap(t: ThreadId)
    | SwapSlot(t: ThreadId, slot: nat)
    | EndSwap(t: ThreadId)
    | ResetCache(t: ThreadId)
    | CloseRetired(t: ThreadId, reader: ReaderId)
    | CloseProvider

  predicate CanOpen(r: Refresher)
  {
    r.Opening? && r.next < |r.snapshot|
  }

  predicate DoneOpening(r: Refresher)
  {
    r.Opening? && r.next == |r.snapshot|
  }

  predicate Enabled(s: State, a: Action)
  {
    match a
    case Tick(_) => true
    case BeginLookup(t, _) => t !in s.lookups && s.lock.None?
    case ReadSlot(t) =>
      t in s.lookups && |s.lookups[t].used| < s.lookups[t].limit && |s.lookups[t].used| < |s.pool.slots|
    case FinishLookup(t, _, _, _, at) => t in s.lookups && |s.lookups[t].used| == s.lookups[t].limit && at <= s.now
    case BeginRefresh(t) => t !in s.refreshers && s.lock.None?
    case Unchanged(t) => t in s.refreshers && CanOpen(s.refreshers[t])
    case Open(t, reader) => t in s.refreshers && CanOpen(s.refreshers[t]) && reader !in s.pool.pathOf
    case NothingToDo(t) => t in s.refreshers && DoneOpening(s.refreshers[t]) && s.refreshers[t].loaded == map[]
    case BeginSwap(t) =>
      t in s.refreshers && DoneOpening(s.refreshers[t]) && s.refreshers[t].loaded != map[] && s.lock.None?
    case SwapSlot(t, slot) => t in s.refreshers && s.refreshers[t].Swapping? && slot in s.refreshers[t].todo
    case EndSwap(t) => t in s.refreshers && s.refreshers[t].Swapping? && s.refreshers[t].todo == map[]
    case ResetCache(t) => t in s.refreshers && s.refreshers[t].Resetting?
    case CloseRetired(t, reader) => t in s.refreshers && s.refreshers[t].Closing? && reader in s.refreshers[t].retired
    case CloseProvider => s.lock.None?
  }

  /** The readers a swap retires: the one in the slot, unless the provider is closed. */
  function Evicted(p: Pool, slot: nat): set<ReaderId>
  {
    if p.open && slot < |p.slots| then {p.slots[slot]} else {}
  }

  function Apply(s: State, a: Action): State
    requires Enabled(s, a)
  {
    var n := s.(step := s.step + 1);
    match a
    case Tick(elapsed) => n.(now := s.now + elapsed)
    case BeginLookup(t, key) =>
      n.(lookups := s.lookups[t := Lookup(key, s.step, if s.pool.open then |s.pool.slots| else 0, [])])
    case ReadSlot(t) =>
      var l := s.lookups[t];
      var u := Use(|l.used|, s.pool.slots[|l.used|], s.step);
      n.(lookups := s.lookups[t := Lookup(l.key, l.begun, l.limit, l.used + [u])])
    case FinishLookup(t, failed, fields, found, at) =>
      var l := s.lookups[t];
      var record := Stored(Cache.Put(l.key, fields, found, at), l.begun, l.used, s.step);
      n.(lookups := s.lookups - {t}, log := if failed then s.log else s.log + [record])
    case BeginRefresh(t) =>
      n.(refreshers := s.refreshers[t := Opening(if s.pool.open then s.pool.slots else [], 0, map[])])
    case Unchanged(t) =>
      var r := s.refreshers[t];
      n.(refreshers := s.refreshers[t := Opening(r.snapshot, r.next + 1, r.loaded)])
    case Open(t, reader) =>
      var r := s.refreshers[t];
      n.(refreshers := s.refreshers[t := Opening(r.snapshot, r.next + 1, r.loaded[r.next := reader])],
         pool := s.pool.Opened(reader, s.pool.PathOf(r.snapshot[r.next]), t))
    case NothingToDo(t) => n.(refreshers := s.refreshers - {t})
    case BeginSwap(t) => n.(lock := Some(t), refreshers := s.refreshers[t := Swapping(s.refreshers[t].loaded, {})])
    case SwapSlot(t, slot) =>
      var r := s.refreshers[t];
      n.(refreshers := s.refreshers[t := Swapping(r.todo - {slot}, r.retired + Evicted(s.pool, slot))],
         pool := s.pool.Swapped(slot, r.todo[slot], t, s.step))
    case EndSwap(t) => n.(lock := None, refreshers := s.refreshers[t := Resetting(s.refreshers[t].retired)])
    case ResetCache(t) =>
      var retired := s.refreshers[t].retired;
      n.(refreshers := s.refreshers[t := Closing(retired)],
         pool := s.pool.CacheReset(retired, s.step),
         log := s.log + [Emptied(s.step)])
    case CloseRetired(t, reader) =>
      n.(refreshers := s.refreshers[t := Closing(s.refreshers[t].retired - {reader})],
         pool := s.pool.RetiredClosed(reader))
    case CloseProvider => n.(pool := s.pool.Shut())
  }

  /** Each action of the run is enabled when it is taken. */
  predicate Runs(paths: seq<bytes>, actions: seq<Action>)
    decreases |actions|, 0
  {
    actions != [] ==>
      var front := actions[..|actions| - 1];
      Runs(paths, front) && Enabled(After(paths, front), actions[|actions| - 1])
  }

  function After(paths: seq<bytes>, actions: seq<Action>): State
    requires Runs(paths, actions)
    decreases |actions|, 1
  {
    if actions == [] then Init(paths)
    else Apply(After(paths, actions[..|actions| - 1]), actions[|actions| - 1])
  }

  // -------------------------------------------------------------------------
  // The invariant
  // -------------------------------------------------------------------------

  /** Slot `i` holds a reader opened from path `i`; the bookkeeping knows where each reader is. */
  ghost predicate SlotsInv(p: Pool)
  {
    && |p.slots| == |p.paths|
    && p.place.Keys == p.pathOf.Keys
    && (forall i :: 0 <= i < |p.slots| ==>
          p.slots[i] in p.place && p.place[p.slots[i]] == InSlot(i) && p.pathOf[p.slots[i]] == p.paths[i])
    && (forall r :: r in p.place && p.place[r].InSlot? ==> p.place[r].slot < |p.slots| && p.slots[p.place[r].slot] == r)
  }

  /** A reader has been closed once when it is gone or was in a slot at close, and otherwise never. */
  ghost predicate ClosesInv(p: Pool)
  {
    p.closes.Keys == p.place.Keys &&
    forall r :: r in p.closes ==> p.closes[r] == if p.place[r].Gone? || (p.place[r].InSlot? && !p.open) then 1 else 0
  }

  /** An overwritten reader is out of the slots for good. */
  ghost predicate ReplacedInv(p: Pool, step: nat)
  {
    forall r :: r in p.replaced ==>
      r in p.place && (p.place[r].Retired? || p.place[r].Gone?) && p.replaced[r].step < step
  }

  ghost predicate PoolInv(p: Pool, step: nat)
  {
    SlotsInv(p) && ClosesInv(p) && ReplacedInv(p, step)
  }

  /** Every reset came after the overwriting it was for, and no later than the last time the cache was emptied. */
  ghost predicate ResetsInv(p: Pool, last: int)
  {
    forall r :: r in p.replaced && p.replaced[r].reset.Some? ==> p.replaced[r].step < p.replaced[r].reset.value <= last
  }

  ghost predicate LoadedInv(p: Pool, t: ThreadId, loaded: map<nat, ReaderId>)
  {
    && (forall i :: i in loaded ==>
          && i < |p.paths| && loaded[i] in p.place && p.place[loaded[i]] == Waiting(t)
          && loaded[i] in p.pathOf && p.pathOf[loaded[i]] == p.paths[i])
    && (forall i, j :: i in loaded && j in loaded && loaded[i] == loaded[j] ==> i == j)
  }

  ghost predicate RetiredInv(p: Pool, t: ThreadId, retired: set<ReaderId>)
  {
    forall r :: r in retired ==> r in p.place && p.place[r] == Retired(t) && r in p.replaced
  }

  ghost predicate NotReset(p: Pool, retired: set<ReaderId>)
  {
    forall r :: r in retired ==> r in p.replaced && p.replaced[r].reset.None?
  }

  ghost predicate SnapshotInv(p: Pool, snapshot: seq<ReaderId>)
  {
    |snapshot| <= |p.paths| && forall i :: 0 <= i < |snapshot| ==>
      snapshot[i] in p.pathOf && p.pathOf[snapshot[i]] == p.paths[i]
  }

  ghost predicate RefresherInv(p: Pool, lock: Option<ThreadId>, t: ThreadId, r: Refresher)
  {
    match r
    case Opening(snapshot, next, loaded) =>
      next <= |snapshot| && SnapshotInv(p, snapshot) && LoadedInv(p, t, loaded) && forall i :: i in loaded ==> i < next
    case Swapping(todo, retired) =>
      lock == Some(t) && LoadedInv(p, t, todo) && RetiredInv(p, t, retired) && NotReset(p, retired)
    case Resetting(retired) => RetiredInv(p, t, retired) && NotReset(p, retired)
    case Closing(retired) => RetiredInv(p, t, retired)
  }

  ghost predicate RefreshersInv(p: Pool, lock: Option<ThreadId>, refreshers: map<ThreadId, Refresher>)
  {
    && (lock.Some? ==> lock.value in refreshers && refreshers[lock.value].Swapping?)
    && forall t :: t in refreshers ==> RefresherInv(p, lock, t, refreshers[t])
  }

  /** A reader that a lookup read is still in its slot, or was overwritten after it was read. */
  ghost predicate UseInv(p: Pool, step: nat, u: Use)
  {
    && u.slot < |p.slots| && u.slot < |p.paths| && u.step < step
    && u.reader in p.pathOf && p.pathOf[u.reader] == p.paths[u.slot]
    && (p.slots[u.slot] == u.reader || (u.reader in p.replaced && u.step < p.replaced[u.reader].step))
  }

  /** The slots a lookup read, in priority order. */
  ghost predicate UsedInv(p: Pool, step: nat, begun: nat, used: seq<Use>)
  {
    && begun < step
    && forall k :: 0 <= k < |used| ==> used[k].slot == k && begun < used[k].step && UseInv(p, step, used[k])
  }

  ghost predicate LookupInv(p: Pool, step: nat, l: Lookup)
  {
    |l.used| <= l.limit && l.limit in {0, |p.slots|} && UsedInv(p, step, l.begun, l.used)
  }

  ghost predicate LookupsInv(p: Pool, step: nat, lookups: map<ThreadId, Lookup>)
  {
    forall t :: t in lookups ==> LookupInv(p, step, lookups[t])
  }

  ghost predicate RecordInv(p: Pool, step: nat, now: int, c: CacheRecord)
  {
    c.step < step &&
    (c.Stored? ==> c.put.Put? && c.put.now <= now && |c.used| in {0, |p.slots|} && UsedInv(p, c.step, c.begun, c.used))
  }

  ghost predicate LogInv(p: Pool, step: nat, now: int, log: seq<CacheRecord>)
  {
    && (forall i :: 0 <= i < |log| ==> RecordInv(p, step, now, log[i]))
    && (forall i, j :: 0 <= i < j < |log| ==> log[i].step < log[j].step)
  }

  /** The step of the last time the cache was emptied, or -1. */
  function LastEmptied(log: seq<CacheRecord>): int
  {
    if log == [] then -1
    else if log[|log| - 1].Emptied? then log[|log| - 1].step
    else LastEmptied(log[..|log| - 1])
  }

  ghost predicate Inv(s: State)
  {
    && PoolInv(s.pool, s.step) && ResetsInv(s.pool, LastEmptied(s.log))
    && RefreshersInv(s.pool, s.lock, s.refreshers)
    && LookupsInv(s.pool, s.step, s.lookups)
    && LogInv(s.pool, s.step, s.now, s.log)
  }

  lemma InitInv(paths: seq<bytes>)
    ensures Inv(Init(paths))
  {
  }

  // -------------------------------------------------------------------------
  // What a step leaves alone
  // -------------------------------------------------------------------------

  /** Slots are overwritten only by replacing their reader; paths and old replacements stay. */
  ghost predicate Grows(p: Pool, q: Pool, step: nat)
  {
    && q.paths == p.paths && |q.slots| == |p.slots|
    && (forall r :: r in p.pathOf ==> r in q.pathOf && q.pathOf[r] == p.pathOf[r])
    && (forall i :: 0 <= i < |p.slots| ==>
          q.slots[i] == p.slots[i] || (p.slots[i] in q.replaced && q.replaced[p.slots[i]].step == step))
    && (forall r :: r in p.replaced ==> r in q.replaced && q.replaced[r].step == p.replaced[r].step)
  }

  predicate Owned(place: Whereabouts)
  {
    place.Waiting? || place.Retired?
  }

  /** Readers that belong to refreshes other than `t` are left alone. */
  ghost predicate Others(p: Pool, q: Pool, t: ThreadId)
  {
    forall r :: r in p.place && Owned(p.place[r]) && p.place[r].owner != t ==>
      r in q.place && q.place[r] == p.place[r] &&
      (r in p.replaced ==> r in q.replaced && q.replaced[r] == p.replaced[r])
  }

  lemma UseKept(p: Pool, q: Pool, step: nat, from: nat, to: nat, u: Use)
    requires UseInv(p, from, u) && Grows(p, q, step) && from <= step && from <= to
    ensures UseInv(q, to, u)
  {
  }

  lemma UsedKept(p: Pool, q: Pool, step: nat, from: nat, to: nat, begun: nat, used: seq<Use>)
    requires UsedInv(p, from, begun, used) && Grows(p, q, step) && from <= step && from <= to
    ensures UsedInv(q, to, begun, used)
  {
    hide Grows, UseInv;
    forall k | 0 <= k < |used|
      ensures UseInv(q, to, used[k])
    {
      UseKept(p, q, step, from, to, used[k]);
    }
  }

  lemma LookupsKept(p: Pool, q: Pool, step: nat, lookups: map<ThreadId, Lookup>)
    requires LookupsInv(p, step, lookups) && Grows(p, q, step)
    ensures LookupsInv(q, step + 1, lookups)
  {
    hide UsedInv;
    forall t | t in lookups
      ensures LookupInv(q, step + 1, lookups[t])
    {
      UsedKept(p, q, step, step, step + 1, lookups[t].begun, lookups[t].used);
    }
  }

  lemma LogKept(p: Pool, q: Pool, step: nat, now: int, later: int, log: seq<CacheRecord>)
    requires LogInv(p, step, now, log) && Grows(p, q, step) && now <= later
    ensures LogInv(q, step + 1, later, log)
  {
    hide UsedInv;
    forall i | 0 <= i < |log|
      ensures RecordInv(q, step + 1, later, log[i])
    {
      assert RecordInv(p, step, now, log[i]);
      if log[i].Stored? {
        UsedKept(p, q, step, log[i].step, log[i].step, log[i].begun, log[i].used);
      }
    }
  }

  lemma RefresherKept(p: Pool, q: Pool, lock: Option<ThreadId>, after: Option<ThreadId>, t: ThreadId, other: ThreadId,
                      r: Refresher, step: nat)
    requires RefresherInv(p, lock, other, r) && other != t && Others(p, q, t) && Grows(p, q, step)
    requires r.Swapping? ==> after == lock
    ensures RefresherInv(q, after, other, r)
  {
  }

  /** The refreshes other than `t` keep their invariant; `t` has to establish its own. */
  lemma RefreshersKept(p: Pool, q: Pool, s: State, lock: Option<ThreadId>, t: ThreadId, r: Refresher)
    requires RefreshersInv(p, s.lock, s.refreshers) && Others(p, q, t) && Grows(p, q, s.step)
    requires RefresherInv(q, lock, t, r)
    requires if r.Swapping? then lock == Some(t) && s.lock in {None, Some(t)}
             else lock == if s.lock == Some(t) then None else s.lock
    ensures RefreshersInv(q, lock, s.refreshers[t := r])
  {
    hide Grows, Others, RefresherInv;
    forall other | other in s.refreshers && other != t
      ensures RefresherInv(q, lock, other, s.refreshers[other])
    {
      assert RefresherInv(p, s.lock, other, s.refreshers[other]);
      SwappingHoldsLock(p, s.lock, other, s.refreshers[other]);
      RefresherKept(p, q, s.lock, lock, t, other, s.refreshers[other], s.step);
    }
  }

  lemma SwappingHoldsLock(p: Pool, lock: Option<ThreadId>, t: ThreadId, r: Refresher)
    requires RefresherInv(p, lock, t, r)
    ensures r.Swapping? ==> lock == Some(t)
  {
  }

  lemma Unmoved(p: Pool, step: nat, t: ThreadId)
    requires PoolInv(p, step)
    ensures PoolInv(p, step + 1) && Grows(p, p, step) && Others(p, p, t)
  {
  }

  // -------------------------------------------------------------------------
  // What the steps do to the readers
  // -------------------------------------------------------------------------

  lemma OpenedInv(p: Pool, reader: ReaderId, path: bytes, t: ThreadId, step: nat)
    requires PoolInv(p, step) && reader !in p.pathOf
    ensures var q := p.Opened(reader, path, t); PoolInv(q, step + 1) && Grows(p, q, step) && Others(p, q, t)
  {
  }

  /** A new reader is swapped into its own slot. */
  ghost predicate CanSwap(p: Pool, slot: nat, reader: ReaderId, t: ThreadId)
  {
    && slot < |p.paths| && reader in p.place && p.place[reader] == Waiting(t)
    && reader in p.pathOf && p.pathOf[reader] == p.paths[slot]
  }

  lemma SwappedSlots(p: Pool, slot: nat, reader: ReaderId, t: ThreadId, step: nat)
    requires SlotsInv(p) && CanSwap(p, slot, reader, t)
    ensures SlotsInv(p.Swapped(slot, reader, t, step))
  {
  }

  lemma SwappedCloses(p: Pool, slot: nat, reader: ReaderId, t: ThreadId, step: nat)
    requires SlotsInv(p) && ClosesInv(p) && CanSwap(p, slot, reader, t)
    ensures ClosesInv(p.Swapped(slot, reader, t, step))
  {
    assert p.open && slot < |p.slots| ==> p.slots[slot] in p.place && p.place[p.slots[slot]].InSlot?;
  }

  lemma SwappedReplaced(p: Pool, slot: nat, reader: ReaderId, t: ThreadId, step: nat)
    requires SlotsInv(p) && ReplacedInv(p, step) && CanSwap(p, slot, reader, t)
    ensures var q := p.Swapped(slot, reader, t, step);
            ReplacedInv(q, step + 1) && Grows(p, q, step) && Others(p, q, t)
  {
    assert p.open && slot < |p.slots| ==> p.slots[slot] in p.place && p.place[p.slots[slot]].InSlot?;
  }

  lemma SwappedInv(p: Pool, slot: nat, reader: ReaderId, t: ThreadId, step: nat)
    requires PoolInv(p, step) && CanSwap(p, slot, reader, t)
    ensures var q := p.Swapped(slot, reader, t, step); PoolInv(q, step + 1) && Grows(p, q, step) && Others(p, q, t)
  {
    hide SlotsInv, ClosesInv, ReplacedInv, Grows, Others, Pool.Swapped, CanSwap;
    SwappedSlots(p, slot, reader, t, step);
    SwappedCloses(p, slot, reader, t, step);
    SwappedReplaced(p, slot, reader, t, step);
  }

  lemma CacheResetInv(p: Pool, retired: set<ReaderId>, t: ThreadId, step: nat)
    requires PoolInv(p, step) && RetiredInv(p, t, retired)
    ensures var q := p.CacheReset(retired, step); PoolInv(q, step + 1) && Grows(p, q, step) && Others(p, q, t)
  {
  }

  lemma RetiredClosedInv(p: Pool, reader: ReaderId, t: ThreadId, step: nat)
    requires PoolInv(p, step) && reader in p.place && p.place[reader] == Retired(t)
    ensures var q := p.RetiredClosed(reader); PoolInv(q, step + 1) && Grows(p, q, step) && Others(p, q, t)
  {
  }

  lemma ShutInv(p: Pool, step: nat, t: ThreadId)
    requires PoolInv(p, step)
    ensures var q := p.Shut(); PoolInv(q, step + 1) && Grows(p, q, step) && Others(p, q, t)
  {
  }

  // -------------------------------------------------------------------------
  // Every step keeps the invariant
  // -------------------------------------------------------------------------

  lemma {:induction false} LastEmptiedAmong(log: seq<CacheRecord>)
    ensures LastEmptied(log) == -1 || exists i :: 0 <= i < |log| && log[i].step == LastEmptied(log)
  {
    if log != [] && log[|log| - 1].Stored? {
      LastEmptiedAmong(log[..|log| - 1]);
    }
  }

  lemma LogGrows(p: Pool, step: nat, now: int, log: seq<CacheRecord>, c: CacheRecord)
    requires LogInv(p, step + 1, now, log) && RecordInv(p, step + 1, now, c) && c.step == step
    requires forall i :: 0 <= i < |log| ==> log[i].step < step
    ensures LogInv(p, step + 1, now, log + [c])
    ensures LastEmptied(log + [c]) == if c.Emptied? then step else LastEmptied(log)
  {
    hide RecordInv, LastEmptied;
    LastEmptiedOf(log, c);
  }

  lemma LastEmptiedOf(log: seq<CacheRecord>, c: CacheRecord)
    ensures LastEmptied(log + [c]) == if c.Emptied? then c.step else LastEmptied(log)
  {
    assert (log + [c])[..|log|] == log;
  }

  lemma TickKeepsInv(s: State, elapsed: nat)
    requires Inv(s)
    ensures Inv(Apply(s, Tick(elapsed)))
  {
    hide PoolInv, ResetsInv, RefreshersInv, LookupsInv, LogInv, Grows, Others;
    Unmoved(s.pool, s.step, 0);
    LookupsKept(s.pool, s.pool, s.step, s.lookups);
    LogKept(s.pool, s.pool, s.step, s.now, s.now + elapsed, s.log);
  }

  lemma LookupMade(p: Pool, step: nat, lookups: map<ThreadId, Lookup>, t: ThreadId, l: Lookup)
    requires LookupsInv(p, step, lookups) && LookupInv(p, step, l)
    ensures LookupsInv(p, step, lookups[t := l])
  {
    hide LookupInv;
  }

  lemma BeginLookupKeepsInv(s: State, t: ThreadId, key: bytes)
    requires Inv(s) && Enabled(s, BeginLookup(t, key))
    ensures Inv(Apply(s, BeginLookup(t, key)))
  {
    hide PoolInv, ResetsInv, RefreshersInv, LookupsInv, LogInv, Grows, Others;
    Unmoved(s.pool, s.step, 0);
    LookupsKept(s.pool, s.pool, s.step, s.lookups);
    LogKept(s.pool, s.pool, s.step, s.now, s.now, s.log);
    LookupMade(s.pool, s.step + 1, s.lookups, t, Lookup(key, s.step, if s.pool.open then |s.pool.slots| else 0, []));
  }

  lemma SlotRead(p: Pool, step: nat, l: Lookup)
    requires SlotsInv(p) && LookupInv(p, step, l) && |l.used| < l.limit && |l.used| < |p.slots|
    ensures LookupInv(p, step + 1, Lookup(l.key, l.begun, l.limit, l.used + [Use(|l.used|, p.slots[|l.used|], step)]))
  {
  }

  lemma ReadSlotKeepsInv(s: State, t: ThreadId)
    requires Inv(s) && Enabled(s, ReadSlot(t))
    ensures Inv(Apply(s, ReadSlot(t)))
  {
    hide PoolInv, ResetsInv, RefreshersInv, LookupsInv, LookupInv, LogInv, Grows, Others;
    Unmoved(s.pool, s.step, 0);
    LookupsKept(s.pool, s.pool, s.step, s.lookups);
    LogKept(s.pool, s.pool, s.step, s.now, s.now, s.log);
    var l := s.lookups[t];
    assert LookupInv(s.pool, s.step, l) && SlotsInv(s.pool) by {
      LookupOf(s, t);
    }
    SlotRead(s.pool, s.step, l);
    var u := Use(|l.used|, s.pool.slots[|l.used|], s.step);
    LookupMade(s.pool, s.step + 1, s.lookups, t, Lookup(l.key, l.begun, l.limit, l.used + [u]));
  }

  lemma LookupOf(s: State, t: ThreadId)
    requires Inv(s) && t in s.lookups
    ensures LookupInv(s.pool, s.step, s.lookups[t]) && SlotsInv(s.pool)
  {
    hide SlotsInv, ClosesInv, ReplacedInv, ResetsInv, RefreshersInv, LookupInv, LogInv;
  }

  lemma LookupGone(p: Pool, step: nat, lookups: map<ThreadId, Lookup>, t: ThreadId)
    requires LookupsInv(p, step, lookups)
    ensures LookupsInv(p, step, lookups - {t})
  {
    hide LookupInv;
  }

  lemma StoredInv(p: Pool, step: nat, now: int, l: Lookup, put: Cache.Event)
    requires LookupInv(p, step, l) && |l.used| == l.limit && put.Put? && put.now <= now
    ensures RecordInv(p, step + 1, now, Stored(put, l.begun, l.used, step))
  {
    hide UsedInv;
  }

  lemma LogSteps(p: Pool, step: nat, now: int, log: seq<CacheRecord>)
    requires LogInv(p, step, now, log)
    ensures forall i :: 0 <= i < |log| ==> log[i].step < step
    ensures LastEmptied(log) < step
  {
    hide UsedInv;
    forall i | 0 <= i < |log|
      ensures log[i].step < step
    {
      assert RecordInv(p, step, now, log[i]);
    }
    LastEmptiedAmong(log);
  }

  lemma FinishLookupKeepsInv(s: State, a: Action)
    requires a.FinishLookup? && Inv(s) && Enabled(s, a)
    ensures Inv(Apply(s, a))
  {
    hide PoolInv, ResetsInv, RefreshersInv, LookupsInv, LookupInv, LogInv, RecordInv, Grows, Others, LastEmptied;
    var t := a.t;
    Unmoved(s.pool, s.step, 0);
    LookupsKept(s.pool, s.pool, s.step, s.lookups);
    LookupGone(s.pool, s.step + 1, s.lookups, t);
    LogKept(s.pool, s.pool, s.step, s.now, s.now, s.log);
    if !a.failed {
      var l := s.lookups[t];
      LookupOf(s, t);
      var put := Cache.Put(l.key, a.fields, a.found, a.at);
      StoredInv(s.pool, s.step, s.now, l, put);
      LogSteps(s.pool, s.step, s.now, s.log);
      LogGrows(s.pool, s.step, s.now, s.log, Stored(put, l.begun, l.used, s.step));
    }
  }

  lemma RefresherOf(s: State, t: ThreadId)
    requires Inv(s) && t in s.refreshers
    ensures RefresherInv(s.pool, s.lock, t, s.refreshers[t]) && SlotsInv(s.pool)
    ensures s.lock == Some(t) ==> s.refreshers[t].Swapping?
    ensures s.refreshers[t].Swapping? ==> s.lock == Some(t)
  {
    hide SlotsInv, ClosesInv, ReplacedInv, ResetsInv, LookupsInv, LogInv;
  }

  /** The state after a refresher's step that does not touch the cache. */
  function Moved(s: State, q: Pool, lock: Option<ThreadId>, t: ThreadId, r: Refresher): State
  {
    State(s.step + 1, s.now, q, lock, s.lookups, s.refreshers[t := r], s.log)
  }

  lemma MovedInv(s: State, q: Pool, lock: Option<ThreadId>, t: ThreadId, r: Refresher)
    requires Inv(s) && PoolInv(q, s.step + 1) && Grows(s.pool, q, s.step) && Others(s.pool, q, t)
    requires RefresherInv(q, lock, t, r) && ResetsInv(q, LastEmptied(s.log))
    requires if r.Swapping? then lock == Some(t) && s.lock in {None, Some(t)}
             else lock == if s.lock == Some(t) then None else s.lock
    ensures Inv(Moved(s, q, lock, t, r))
  {
    hide PoolInv, ResetsInv, RefreshersInv, RefresherInv, LookupsInv, LogInv, Grows, Others, LastEmptied;
    RefreshersKept(s.pool, q, s, lock, t, r);
    LookupsKept(s.pool, q, s.step, s.lookups);
    LogKept(s.pool, q, s.step, s.now, s.now, s.log);
  }

  lemma BeginRefreshKeepsInv(s: State, t: ThreadId)
    requires Inv(s) && Enabled(s, BeginRefresh(t))
    ensures Inv(Apply(s, BeginRefresh(t)))
  {
    hide ResetsInv, RefreshersInv, LookupsInv, LogInv, Grows, Others, ClosesInv, ReplacedInv, LastEmptied;
    Unmoved(s.pool, s.step, t);
    MovedInv(s, s.pool, None, t, Opening(if s.pool.open then s.pool.slots else [], 0, map[]));
  }

  lemma UnchangedKeepsInv(s: State, t: ThreadId)
    requires Inv(s) && Enabled(s, Unchanged(t))
    ensures Inv(Apply(s, Unchanged(t)))
  {
    hide PoolInv, SlotsInv, ResetsInv, RefreshersInv, LookupsInv, LogInv, Grows, Others, SnapshotInv, LoadedInv,
         LastEmptied;
    RefresherOf(s, t);
    Unmoved(s.pool, s.step, t);
    var r := s.refreshers[t];
    MovedInv(s, s.pool, s.lock, t, Opening(r.snapshot, r.next + 1, r.loaded));
  }

  lemma LoadedGrows(p: Pool, t: ThreadId, r: Refresher, reader: ReaderId)
    requires SlotsInv(p) && RefresherInv(p, None, t, r) && CanOpen(r) && reader !in p.pathOf
    ensures RefresherInv(p.Opened(reader, p.PathOf(r.snapshot[r.next]), t), None, t,
                         Opening(r.snapshot, r.next + 1, r.loaded[r.next := reader]))
  {
  }

  lemma OpenKeepsInv(s: State, t: ThreadId, reader: ReaderId)
    requires Inv(s) && Enabled(s, Open(t, reader))
    ensures Inv(Apply(s, Open(t, reader)))
  {
    hide PoolInv, SlotsInv, RefreshersInv, LookupsInv, LogInv, Grows, Others, SnapshotInv, LoadedInv, LastEmptied;
    RefresherOf(s, t);
    var r := s.refreshers[t];
    var path := s.pool.PathOf(r.snapshot[r.next]);
    OpenedInv(s.pool, reader, path, t, s.step);
    LoadedGrows(s.pool, t, r, reader);
    MovedInv(s, s.pool.Opened(reader, path, t), s.lock, t, Opening(r.snapshot, r.next + 1, r.loaded[r.next := reader]));
  }

  lemma NothingToDoKeepsInv(s: State, t: ThreadId)
    requires Inv(s) && Enabled(s, NothingToDo(t))
    ensures Inv(Apply(s, NothingToDo(t)))
  {
    hide PoolInv, ResetsInv, RefresherInv, LookupsInv, LogInv, Grows, Others, LastEmptied;
    Unmoved(s.pool, s.step, t);
    LookupsKept(s.pool, s.pool, s.step, s.lookups);
    LogKept(s.pool, s.pool, s.step, s.now, s.now, s.log);
  }

  lemma BeginSwapKeepsInv(s: State, t: ThreadId)
    requires Inv(s) && Enabled(s, BeginSwap(t))
    ensures Inv(Apply(s, BeginSwap(t)))
  {
    hide PoolInv, SlotsInv, ResetsInv, RefreshersInv, LookupsInv, LogInv, Grows, Others, LoadedInv, LastEmptied;
    RefresherOf(s, t);
    Unmoved(s.pool, s.step, t);
    MovedInv(s, s.pool, Some(t), t, Swapping(s.refreshers[t].loaded, {}));
  }

  lemma TodoShrinks(p: Pool, t: ThreadId, todo: map<nat, ReaderId>, slot: nat, step: nat)
    requires SlotsInv(p) && LoadedInv(p, t, todo) && slot in todo
    ensures CanSwap(p, slot, todo[slot], t) && LoadedInv(p.Swapped(slot, todo[slot], t, step), t, todo - {slot})
  {
    assert p.open && slot < |p.slots| ==> p.slots[slot] in p.place && p.place[p.slots[slot]].InSlot?;
  }

  lemma RetiredGrows(p: Pool, t: ThreadId, retired: set<ReaderId>, slot: nat, reader: ReaderId, step: nat)
    requires SlotsInv(p) && RetiredInv(p, t, retired) && NotReset(p, retired) && CanSwap(p, slot, reader, t)
    ensures var q := p.Swapped(slot, reader, t, step); var after := retired + Evicted(p, slot);
            RetiredInv(q, t, after) && NotReset(q, after)
  {
    assert p.open && slot < |p.slots| ==> p.slots[slot] in p.place && p.place[p.slots[slot]].InSlot?;
  }

  lemma SwapSlotKeepsInv(s: State, t: ThreadId, slot: nat)
    requires Inv(s) && Enabled(s, SwapSlot(t, slot))
    ensures Inv(Apply(s, SwapSlot(t, slot)))
  {
    hide PoolInv, SlotsInv, RefreshersInv, RetiredInv, NotReset, LookupsInv, LogInv, Grows, Others, LoadedInv,
         CanSwap, LastEmptied;
    RefresherOf(s, t);
    var r := s.refreshers[t];
    var p := s.pool;
    TodoShrinks(p, t, r.todo, slot, s.step);
    RetiredGrows(p, t, r.retired, slot, r.todo[slot], s.step);
    SwappedInv(p, slot, r.todo[slot], t, s.step);
    MovedInv(s, p.Swapped(slot, r.todo[slot], t, s.step), s.lock, t,
             Swapping(r.todo - {slot}, r.retired + Evicted(p, slot)));
  }

  lemma EndSwapKeepsInv(s: State, t: ThreadId)
    requires Inv(s) && Enabled(s, EndSwap(t))
    ensures Inv(Apply(s, EndSwap(t)))
  {
    hide PoolInv, SlotsInv, ResetsInv, RefreshersInv, LookupsInv, LogInv, Grows, Others, LoadedInv, LastEmptied;
    RefresherOf(s, t);
    Unmoved(s.pool, s.step, t);
    MovedInv(s, s.pool, None, t, Resetting(s.refreshers[t].retired));
  }

  lemma ResetCacheKeepsInv(s: State, t: ThreadId)
    requires Inv(s) && Enabled(s, ResetCache(t))
    ensures Inv(Apply(s, ResetCache(t)))
  {
    hide PoolInv, SlotsInv, RefreshersInv, LookupsInv, LogInv, Grows, Others, LastEmptied;
    RefresherOf(s, t);
    var retired := s.refreshers[t].retired;
    var q := s.pool.CacheReset(retired, s.step);
    CacheResetInv(s.pool, retired, t, s.step);
    RefreshersKept(s.pool, q, s, s.lock, t, Closing(retired));
    LookupsKept(s.pool, q, s.step, s.lookups);
    LogKept(s.pool, q, s.step, s.now, s.now, s.log);
    LogSteps(s.pool, s.step, s.now, s.log);
    LogGrows(q, s.step, s.now, s.log, Emptied(s.step));
    ResetsAfter(s.pool, retired, s.step, LastEmptied(s.log));
  }

  lemma ResetsAfter(p: Pool, retired: set<ReaderId>, step: nat, last: int)
    requires PoolInv(p, step) && ResetsInv(p, last) && last < step
    ensures ResetsInv(p.CacheReset(retired, step), step)
  {
    hide SlotsInv, ClosesInv;
  }

  lemma CloseRetiredKeepsInv(s: State, t: ThreadId, reader: ReaderId)
    requires Inv(s) && Enabled(s, CloseRetired(t, reader))
    ensures Inv(Apply(s, CloseRetired(t, reader)))
  {
    hide PoolInv, SlotsInv, RefreshersInv, LookupsInv, LogInv, Grows, Others, LastEmptied;
    RefresherOf(s, t);
    RetiredClosedInv(s.pool, reader, t, s.step);
    MovedInv(s, s.pool.RetiredClosed(reader), s.lock, t, Closing(s.refreshers[t].retired - {reader}));
  }

  lemma CloseProviderKeepsInv(s: State)
    requires Inv(s) && Enabled(s, CloseProvider)
    ensures Inv(Apply(s, CloseProvider))
  {
    hide PoolInv, RefresherInv, LookupsInv, LogInv, Grows, Others, LastEmptied;
    var q := s.pool.Shut();
    forall t | t in s.refreshers
      ensures RefresherInv(q, s.lock, t, s.refreshers[t])
    {
      RefresherOf(s, t);
      ShutInv(s.pool, s.step, t + 1);
      RefresherKept(s.pool, q, s.lock, s.lock, t + 1, t, s.refreshers[t], s.step);
    }
    ShutInv(s.pool, s.step, 0);
    LookupsKept(s.pool, q, s.step, s.lookups);
    LogKept(s.pool, q, s.step, s.now, s.now, s.log);
  }

  lemma StepKeepsInv(s: State, a: Action)
    requires Inv(s) && Enabled(s, a)
    ensures Inv(Apply(s, a))
  {
    hide Inv, Enabled, Apply;
    match a
    case Tick(elapsed) => TickKeepsInv(s, elapsed);
    case BeginLookup(t, key) => BeginLookupKeepsInv(s, t, key);
    case ReadSlot(t) => ReadSlotKeepsInv(s, t);
    case FinishLookup(_, _, _, _, _) => FinishLookupKeepsInv(s, a);
    case BeginRefresh(t) => BeginRefreshKeepsInv(s, t);
    case Unchanged(t) => UnchangedKeepsInv(s, t);
    case Open(t, reader) => OpenKeepsInv(s, t, reader);
    case NothingToDo(t) => NothingToDoKeepsInv(s, t);
    case BeginSwap(t) => BeginSwapKeepsInv(s, t);
    case SwapSlot(t, slot) => SwapSlotKeepsInv(s, t, slot);
    case EndSwap(t) => EndSwapKeepsInv(s, t);
    case ResetCache(t) => ResetCacheKeepsInv(s, t);
    case CloseRetired(t, reader) => CloseRetiredKeepsInv(s, t, reader);
    case CloseProvider => CloseProviderKeepsInv(s);
  }

  lemma StepKeepsPaths(s: State, a: Action)
    requires Enabled(s, a)
    ensures Apply(s, a).pool.paths == s.pool.paths
  {
  }

  lemma {:induction false} RunKeepsInv(paths: seq<bytes>, actions: seq<Action>)
    requires Runs(paths, actions)
    ensures Inv(After(paths, actions)) && After(paths, actions).pool.paths == paths
    decreases |actions|
  {
    hide Inv, Enabled, Apply;
    if actions == [] {
      InitInv(paths);
    } else {
      var front := actions[..|actions| - 1];
      RunKeepsInv(paths, front);
      StepKeepsPaths(After(paths, front), actions[|actions| - 1]);
      StepKeepsInv(After(paths, front), actions[|actions| - 1]);
    }
  }
}
