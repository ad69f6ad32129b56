/**
 A refresh with nothing in between: the steps of the protocol, taken one after another, do what the provider's
 refresh does as one operation.
 */
module RefreshRuns {
  import opened Bytes
  import opened Refresh
  import opened RefreshSafety
  import DataSection
  import opened FreshAnswers
  import Plugins

  /** New readers for some slots, none of them seen before. */
  ghost predicate NewReaders(p: Pool, loaded: map<nat, ReaderId>)
  {
    && (forall i :: i in loaded ==> i < |p.slots| && loaded[i] !in p.pathOf)
    && (forall i, j :: i in loaded && j in loaded && i != j ==> loaded[i] != loaded[j])
  }

  function Below(loaded: map<nat, ReaderId>, n: nat): map<nat, ReaderId>
  {
    map i | i in loaded && i < n :: loaded[i]
  }

  lemma BelowNext(loaded: map<nat, ReaderId>, n: nat)
    ensures Below(loaded, 0) == map[]
    ensures Below(loaded, n + 1) == if n in loaded then Below(loaded, n)[n := loaded[n]] else Below(loaded, n)
  {
  }

  // -------------------------------------------------------------------------
  // Opening the files that changed
  // -------------------------------------------------------------------------

  /** The refresh has gone through `n` slots, and nothing else has happened since `s`. */
  ghost predicate OpenedUpTo(s: State, q: State, t: ThreadId, loaded: map<nat, ReaderId>, n: nat)
  {
    && q.pool.slots == s.pool.slots && q.pool.open && q.log == s.log && q.lock.None?
    && t in q.refreshers && q.refreshers[t] == Opening(s.pool.slots, n, Below(loaded, n))
    && forall i :: i in loaded && i >= n ==> loaded[i] !in q.pool.pathOf
  }

  lemma OneOpened(s: State, q: State, t: ThreadId, loaded: map<nat, ReaderId>, n: nat) returns (a: Action)
    requires NewReaders(s.pool, loaded) && OpenedUpTo(s, q, t, loaded, n) && n < |s.pool.slots|
    ensures Enabled(q, a) && OpenedUpTo(s, Apply(q, a), t, loaded, n + 1)
  {
    BelowNext(loaded, n);
    a := if n in loaded then Open(t, loaded[n]) else Unchanged(t);
  }

  lemma {:induction false} AllOpened(paths: seq<bytes>, actions: seq<Action>, t: ThreadId, loaded: map<nat, ReaderId>,
                                     n: nat)
    returns (longer: seq<Action>)
    requires Runs(paths, actions)
    requires var s := After(paths, actions);
             s.lock.None? && s.pool.open && t !in s.refreshers && NewReaders(s.pool, loaded)
    requires n <= |After(paths, actions).pool.slots|
    ensures Runs(paths, longer) && OpenedUpTo(After(paths, actions), After(paths, longer), t, loaded, n)
  {
    hide After, Runs, Below;
    var s := After(paths, actions);
    if n == 0 {
      BelowNext(loaded, 0);
      Extend(paths, actions, BeginRefresh(t));
      longer := actions + [BeginRefresh(t)];
    } else {
      longer := AllOpened(paths, actions, t, loaded, n - 1);
      var a := OneOpened(s, After(paths, longer), t, loaded, n - 1);
      Extend(paths, longer, a);
      longer := longer + [a];
    }
  }

  // -------------------------------------------------------------------------
  // Swapping them in
  // -------------------------------------------------------------------------

  lemma SwapKeepsRest(s: State, t: ThreadId, i: nat, todo: map<nat, ReaderId>)
    requires CanSwapAll(s, t, todo) && i in todo && i < |s.pool.slots|
    ensures Enabled(s, SwapSlot(t, i))
    ensures var q := Apply(s, SwapSlot(t, i)); q.log == s.log && |q.pool.slots| == |s.pool.slots| && q.pool.open
  {
  }

  lemma {:induction false} AllSwapped(paths: seq<bytes>, actions: seq<Action>, t: ThreadId, todo: map<nat, ReaderId>)
    returns (longer: seq<Action>)
    requires Runs(paths, actions) && CanSwapAll(After(paths, actions), t, todo)
    requires forall i :: i in todo ==> i < |After(paths, actions).pool.slots|
    ensures Runs(paths, longer)
    ensures var s, q := After(paths, actions), After(paths, longer);
            && q.pool.slots == Overlaid(s.pool.slots, todo) && q.pool.open && q.log == s.log
            && t in q.refreshers
            && q.refreshers[t] == Swapping(map[], s.refreshers[t].retired + Covered(s.pool.slots, todo))
    decreases |todo|
  {
    hide After, Runs, Apply, Enabled, Overlaid, Covered;
    var s := After(paths, actions);
    if todo == map[] {
      NothingOverlaid(s.pool.slots);
      longer := actions;
    } else {
      var i :| i in todo;
      OneSwap(s, t, i, todo);
      SwapKeepsRest(s, t, i, todo);
      Extend(paths, actions, SwapSlot(t, i));
      longer := AllSwapped(paths, actions + [SwapSlot(t, i)], t, todo - {i});
      OverlaidLater(s.pool.slots, todo, i);
    }
  }

  // -------------------------------------------------------------------------
  // The whole refresh
  // -------------------------------------------------------------------------

  /** What a refresh that found the changes `loaded` leaves behind. */
  ghost predicate RefreshedBy(s: State, q: State, t: ThreadId, loaded: map<nat, ReaderId>)
  {
    && q.pool.slots == Overlaid(s.pool.slots, loaded) && q.pool.open && q.lock.None?
    && if loaded == map[] then t !in q.refreshers && q.log == s.log
       else
         && t in q.refreshers && q.refreshers[t] == Closing(Covered(s.pool.slots, loaded))
         && |q.log| == |s.log| + 1 && q.log[..|s.log|] == s.log && q.log[|s.log|].Emptied?
  }

  lemma AllBelow(p: Pool, loaded: map<nat, ReaderId>)
    requires NewReaders(p, loaded)
    ensures Below(loaded, |p.slots|) == loaded
  {
  }

  /** Taken without interruption, the steps of a refresh swap in exactly the new readers and then empty the cache. */
  lemma RefreshAlone(paths: seq<bytes>, actions: seq<Action>, t: ThreadId, loaded: map<nat, ReaderId>)
    returns (longer: seq<Action>)
    requires Runs(paths, actions)
    requires var s := After(paths, actions);
             s.lock.None? && s.pool.open && t !in s.refreshers && NewReaders(s.pool, loaded)
    ensures Runs(paths, longer) && RefreshedBy(After(paths, actions), After(paths, longer), t, loaded)
  {
    hide After, Runs, Overlaid, Covered, Below;
    var s := After(paths, actions);
    longer := AllOpened(paths, actions, t, loaded, |s.pool.slots|);
    AllBelow(s.pool, loaded);
    if loaded == map[] {
      NothingOverlaid(s.pool.slots);
      Extend(paths, longer, NothingToDo(t));
      longer := longer + [NothingToDo(t)];
    } else {
      Extend(paths, longer, BeginSwap(t));
      longer := AllSwapped(paths, longer + [BeginSwap(t)], t, loaded);
      var retired := Covered(s.pool.slots, loaded);
      assert {} + retired == retired;
      longer := OneResets(paths, longer, t, retired);
    }
  }

  // -------------------------------------------------------------------------
  // The two refreshes agree
  // -------------------------------------------------------------------------

  lemma SameDatabases(contents: Contents, slots: seq<ReaderId>, loaded: map<nat, ReaderId>, files: seq<Option<bytes>>,
                      inMemory: bool, floatToUint: DataSection.Value -> nat)
    requires |files| == |slots| && loaded.Keys == Plugins.ChangedSlots(files, inMemory, floatToUint)
    requires forall i :: i in loaded ==>
               i < |files| && Plugins.Reopened(files[i], inMemory, floatToUint) == Some(contents.of(loaded[i]))
    ensures contents.Databases(Overlaid(slots, loaded)) ==
            Plugins.Refreshed(contents.Databases(slots), files, inMemory, floatToUint)
  {
    hide Plugins.Reopened;
    var a := contents.Databases(Overlaid(slots, loaded));
    var b := Plugins.Refreshed(contents.Databases(slots), files, inMemory, floatToUint);
    forall i | 0 <= i < |slots|
      ensures a[i] == b[i]
    {
      assert i in Plugins.ChangedSlots(files, inMemory, floatToUint) <==>
             Plugins.Reopened(files[i], inMemory, floatToUint).Some?;
    }
  }

  lemma CacheAfter(before: seq<CacheRecord>, after: seq<CacheRecord>, maxEntries: nat, ttl: nat)
    requires |after| == |before| + 1 && after[..|before|] == before && after[|before|].Emptied?
    ensures Cache.Run(Cache.EMPTY, maxEntries, ttl, Events(after)) == Cache.EMPTY
  {
  }

  /**
   An uninterrupted refresh of the protocol leaves the databases and the cache that the provider's own refresh
   leaves, and retires the readers of the changed slots.
   */
  lemma RefreshAloneIsRefresh(paths: seq<bytes>, actions: seq<Action>, t: ThreadId, loaded: map<nat, ReaderId>,
                              contents: Contents, files: seq<Option<bytes>>, inMemory: bool,
                              floatToUint: DataSection.Value -> nat, maxEntries: nat, ttl: nat)
    returns (longer: seq<Action>)
    requires Runs(paths, actions)
    requires var s := After(paths, actions);
             s.lock.None? && s.pool.open && t !in s.refreshers && NewReaders(s.pool, loaded)
    requires |files| == |After(paths, actions).pool.slots|
    requires loaded.Keys == Plugins.ChangedSlots(files, inMemory, floatToUint)
    requires forall i :: i in loaded ==>
               i < |files| && Plugins.Reopened(files[i], inMemory, floatToUint) == Some(contents.of(loaded[i]))
    ensures Runs(paths, longer)
    ensures var s, q := After(paths, actions), After(paths, longer);
            var changed := Plugins.ChangedSlots(files, inMemory, floatToUint);
            && contents.Databases(q.pool.slots) ==
               Plugins.Refreshed(contents.Databases(s.pool.slots), files, inMemory, floatToUint)
            && Cache.Run(Cache.EMPTY, maxEntries, ttl, Events(q.log)) ==
               (if changed == {} then Cache.Run(Cache.EMPTY, maxEntries, ttl, Events(s.log)) else Cache.EMPTY)
            && (changed != {} ==>
                  t in q.refreshers && q.refreshers[t] == Closing(set i | i in changed :: s.pool.slots[i]))
  {
    hide After, Runs, Overlaid, Plugins.Reopened, Plugins.Refreshed, Plugins.ChangedSlots, Cache.Run, Events;
    longer := RefreshAlone(paths, actions, t, loaded);
    var s, q := After(paths, actions), After(paths, longer);
    SameDatabases(contents, s.pool.slots, loaded, files, inMemory, floatToUint);
    if loaded == map[] {
      assert loaded.Keys == {};
    } else {
      assert loaded.Keys != {} by {
        var i :| i in loaded;
      }
      CacheAfter(s.log, q.log, maxEntries, ttl);
      assert Covered(s.pool.slots, loaded) == set i | i in loaded.Keys :: s.pool.slots[i];
    }
  }
}
