/**
 The provider and the plugin as the objects they are: readers overwritten in place by a refresh, and
 answers kept in a cache. The interleavings of these operations are the subject of module Refresh.
 */
module Plugins {
  import opened Bytes
  import opened DataSection
  import opened Readers
  import opened Fields
  import Cache
  import Provider
  import RefreshSafety

  /** The database in a changed file, when the file opens. */
  function Reopened(file: Option<bytes>, inMemory: bool, floatToUint: Value -> nat): (r: Option<Db>)
    ensures r.Some? ==> r.value.Valid()
  {
    if file.None? then None
    else
      var r := OpenDb(file.value, inMemory, floatToUint);
      if r.Ok? then Some(r.value) else None
  }

  /** What a refresh makes of the databases: a changed file that opens takes its database's place. */
  function Refreshed(dbs: seq<Db>, files: seq<Option<bytes>>, inMemory: bool, floatToUint: Value -> nat): (r: seq<Db>)
    requires |dbs| == |files|
    ensures |r| == |dbs|
  {
    seq(|dbs|, i requires 0 <= i < |dbs| =>
      var r := Reopened(files[i], inMemory, floatToUint); if r.Some? then r.value else dbs[i])
  }

  method CloseAll(readers: seq<Reader>)
    modifies (set r | r in readers :: r.mem), (set r | r in readers :: r.file)
    ensures forall i :: 0 <= i < |readers| ==> readers[i].Released()
  {
    for i := 0 to |readers|
      invariant forall j :: 0 <= j < i ==> readers[j].Released()
    {
      readers[i].Close();
    }
  }

  lemma RefreshedAt(dbs: seq<Db>, files: seq<Option<bytes>>, inMemory: bool, floatToUint: Value -> nat, i: nat)
    requires |dbs| == |files| && i < |dbs|
    ensures |Refreshed(dbs, files, inMemory, floatToUint)| == |dbs|
    ensures var r := Reopened(files[i], inMemory, floatToUint);
            Refreshed(dbs, files, inMemory, floatToUint)[i] == if r.Some? then r.value else dbs[i]
  {
  }

  lemma NothingRefreshed(dbs: seq<Db>, files: seq<Option<bytes>>, inMemory: bool, floatToUint: Value -> nat)
    requires |dbs| == |files| && ChangedSlots(files, inMemory, floatToUint) == {}
    ensures Refreshed(dbs, files, inMemory, floatToUint) == dbs
  {
    hide Reopened;
    forall i | 0 <= i < |files|
      ensures Reopened(files[i], inMemory, floatToUint).None?
    {
      assert i !in ChangedSlots(files, inMemory, floatToUint);
    }
  }

  lemma NothingTaken(before: seq<Reader>)
    ensures TakenFrom([], before, [], {})
  {
  }

  /** The slots whose databases a refresh replaces. */
  function ChangedSlots(files: seq<Option<bytes>>, inMemory: bool, floatToUint: Value -> nat): set<nat>
  {
    set i: nat | i < |files| && Reopened(files[i], inMemory, floatToUint).Some?
  }

  /** Exactly the readers that were in the slots, one for each slot, in the order the slots were taken. */
  ghost predicate TakenFrom(retired: seq<Reader>, before: seq<Reader>, order: seq<nat>, slots: set<nat>)
  {
    && |order| == |retired|
    && (forall j :: 0 <= j < |order| ==> order[j] in slots && order[j] < |before| && retired[j] == before[order[j]])
    && (forall j, k :: 0 <= j < k < |order| ==> order[j] != order[k])
    && (forall i :: i in slots ==> i in order)
  }

  lemma TakeOne(retired: seq<Reader>, before: seq<Reader>, order: seq<nat>, slots: set<nat>, i: nat)
    requires TakenFrom(retired, before, order, slots) && i !in slots && i < |before|
    ensures TakenFrom(retired + [before[i]], before, order + [i], slots + {i})
  {
  }

  /** The slots with those of some indices replaced. */
  function Placed(before: seq<Reader>, replacements: map<nat, Reader>, slots: set<nat>): seq<Reader>
  {
    seq(|before|, i requires 0 <= i < |before| =>
      if i in slots && i in replacements then replacements[i] else before[i])
  }

  lemma PlaceOne(before: seq<Reader>, replacements: map<nat, Reader>, slots: set<nat>, i: nat)
    requires i < |before| && i in replacements && i !in slots
    ensures |Placed(before, replacements, slots)| == |before| && Placed(before, replacements, slots)[i] == before[i]
    ensures Placed(before, replacements, slots)[i := replacements[i]] == Placed(before, replacements, slots + {i})
  {
  }

  lemma PlacedAll(before: seq<Reader>, replacements: map<nat, Reader>, slots: set<nat>)
    ensures Placed(before, replacements, {}) == before
    ensures (forall i :: i in slots <==> i in replacements && i < |before|) ==>
              Placed(before, replacements, slots) == RefreshSafety.Overlaid(before, replacements)
  {
  }

  /** A slot that is there leaves the todo list taken, one that is not leaves it untaken. */
  lemma LessTodo(slots: set<nat>, todo: set<nat>, i: nat)
    requires i in todo
    ensures slots - (todo - {i}) == slots - todo + if i in slots then {i} else {}
    ensures i !in slots - todo
  {
  }

  class MmdbProvider {
    const inMemory: bool
    const seekOnly: bool
    const formatter: Formatter
    const floatToUint: Value -> nat
    const cache: Cache.ResultCache?
    var readers: array<Reader>
    var open: bool
    ghost var dbs: seq<Db>

    ghost predicate Valid()
      reads this, readers, (if cache == null then {} else {cache}), readers[..],
            (set r | r in readers[..] :: r.mem), (set r | r in readers[..] :: r.file)
    {
      && (cache != null ==> cache.Valid())
      && |dbs| == readers.Length
      && (open ==> forall i :: 0 <= i < readers.Length ==> dbs[i].Valid() && readers[i].View() == dbs[i])
    }

    constructor (loaded: seq<Reader>, ghost dbs: seq<Db>, inMemory: bool, seekOnly: bool, formatter: Formatter,
                 floatToUint: Value -> nat, cache: Cache.ResultCache?)
      requires cache != null ==> cache.Valid()
      requires |dbs| == |loaded| && forall i :: 0 <= i < |loaded| ==> dbs[i].Valid() && loaded[i].View() == dbs[i]
      ensures Valid() && open && fresh(readers) && readers[..] == loaded && this.dbs == dbs
      ensures this.inMemory == inMemory && this.seekOnly == seekOnly && this.formatter == formatter &&
              this.cache == cache
    {
      this.inMemory := inMemory;
      this.seekOnly := seekOnly;
      this.formatter := formatter;
      this.floatToUint := floatToUint;
      this.cache := cache;
      readers := new Reader[|loaded|](i requires 0 <= i < |loaded| => loaded[i]);
      open := true;
      this.dbs := dbs;
    }

    /** The databases a lookup sees: none once the provider is closed. */
    ghost function Seen(): seq<Db>
      reads this
    {
      if open then dbs else []
    }

    method Lookup(ip: Option<bytes>, fields: seq<FieldDef>) returns (a: Provider.Answer)
      requires Valid()
      ensures forall i :: 0 <= i < |Seen()| ==> Seen()[i].Valid()
      ensures a == Provider.Lookup(Seen(), seekOnly, formatter, ip, fields)
    {
      hide Provider.Lookup, Db.Valid;
      var views: seq<Db> := [];
      if open {
        for i := 0 to readers.Length
          invariant views == dbs[..i]
        {
          views := views + [readers[i].View()];
        }
        assert views == dbs;
      }
      a := Provider.LookupLoop(views, seekOnly, formatter, ip, fields);
    }

    /** Opens the files that changed; a file that does not open is skipped. */
    method OpenChanged(files: seq<Option<bytes>>) returns (replacements: map<nat, Reader>)
      ensures replacements.Keys == ChangedSlots(files, inMemory, floatToUint)
      ensures forall i :: i in replacements ==>
                fresh(replacements[i]) && Reopened(files[i], inMemory, floatToUint) == Some(replacements[i].View())
    {
      hide OpenDb;
      replacements := map[];
      for i := 0 to |files|
        invariant forall j: nat :: j in replacements <==> j < i && Reopened(files[j], inMemory, floatToUint).Some?
        invariant forall j :: j in replacements ==>
                    fresh(replacements[j]) && Reopened(files[j], inMemory, floatToUint) == Some(replacements[j].View())
      {
        if files[i].Some? {
          var r, _ := Reader.Open(files[i].value, inMemory, floatToUint);
          if r.Ok? {
            replacements := replacements[i := r.value];
          }
        }
      }
    }

    /** The slots among those replaced that are still there. */
    function Overwritten(replacements: map<nat, Reader>): set<nat>
      reads this
    {
      set i | i in replacements && open && i < readers.Length
    }

    /**
     Overwrites the slots in whatever order the map yields them and returns the overwritten readers; a slot that
     is not there, of which a closed provider has none, is skipped.
     */
    method SwapIn(replacements: map<nat, Reader>) returns (retired: seq<Reader>, ghost order: seq<nat>)
      modifies readers
      ensures readers[..] == if open then RefreshSafety.Overlaid(old(readers[..]), replacements) else old(readers[..])
      ensures TakenFrom(retired, old(readers[..]), order, Overwritten(replacements))
    {
      hide TakenFrom, Placed, RefreshSafety.Overlaid;
      ghost var before, slots := readers[..], Overwritten(replacements);
      retired, order := [], [];
      var todo := replacements;
      NothingTaken(before);
      PlacedAll(before, replacements, slots);
      assert slots - todo.Keys == {};
      while todo.Keys != {}
        invariant todo.Keys <= replacements.Keys && forall i :: i in todo ==> todo[i] == replacements[i]
        invariant readers[..] == Placed(before, replacements, slots - todo.Keys)
        invariant TakenFrom(retired, before, order, slots - todo.Keys)
        decreases todo.Keys
      {
        var i :| i in todo;
        assert (todo - {i}).Keys == todo.Keys - {i};
        LessTodo(slots, todo.Keys, i);
        if open && i < readers.Length {
          TakeOne(retired, before, order, slots - todo.Keys, i);
          PlaceOne(before, replacements, slots - todo.Keys, i);
          assert readers[i] == readers[..][i] == before[i];
          ghost var was := readers[..];
          retired, order := retired + [readers[i]], order + [i];
          readers[i] := todo[i];
          assert readers[..] == was[i := replacements[i]];
        } else {
          assert i !in slots && slots - todo.Keys + {} == slots - todo.Keys;
        }
        todo := todo - {i};
      }
      assert slots - todo.Keys == slots;
      if !open {
        assert slots == {};
      }
    }

    /** The part of a refresh done under the lock. */
    method Install(replacements: map<nat, Reader>, files: seq<Option<bytes>>)
      returns (retired: seq<Reader>, ghost order: seq<nat>)
      requires Valid() && open && |files| == readers.Length
      requires replacements.Keys == ChangedSlots(files, inMemory, floatToUint)
      requires forall i :: i in replacements ==>
                 Reopened(files[i], inMemory, floatToUint) == Some(replacements[i].View())
      modifies this`dbs, readers
      ensures Valid() && dbs == Refreshed(old(dbs), files, inMemory, floatToUint)
      ensures TakenFrom(retired, old(readers[..]), order, ChangedSlots(files, inMemory, floatToUint))
    {
      hide Reopened, Refreshed, TakenFrom, Db.Valid, Reader.View, Cache.ResultCache.Valid, RefreshSafety.Overlaid;
      ghost var before, was := dbs, readers[..];
      assert Overwritten(replacements) == replacements.Keys;
      retired, order := SwapIn(replacements);
      dbs := Refreshed(dbs, files, inMemory, floatToUint);
      forall i | 0 <= i < readers.Length
        ensures readers[i].View() == dbs[i] && dbs[i].Valid()
      {
        RefreshedAt(before, files, inMemory, floatToUint, i);
        RefreshSafety.OverlaidAt(was, replacements, i);
      }
    }

    /** A refresh of an open provider. */
    method RefreshOpen(files: seq<Option<bytes>>) returns (retired: seq<Reader>, ghost order: seq<nat>)
      requires Valid() && open && |files| == readers.Length
      modifies this`dbs, readers, if cache == null then {} else {cache}
      ensures Valid() && dbs == Refreshed(old(dbs), files, inMemory, floatToUint)
      ensures cache != null ==>
                cache.View() ==
                if ChangedSlots(files, inMemory, floatToUint) == {} then old(cache.View()) else Cache.EMPTY
      ensures TakenFrom(retired, old(readers[..]), order, ChangedSlots(files, inMemory, floatToUint))
    {
      hide Reopened, Refreshed, TakenFrom, ChangedSlots, Db.Valid, Reader.View, Cache.ResultCache.Valid,
           Cache.ResultCache.View,
           RefreshSafety.Overlaid;
      var replacements := OpenChanged(files);
      if replacements == map[] {
        NothingRefreshed(dbs, files, inMemory, floatToUint);
        retired, order := [], [];
        NothingTaken(readers[..]);
        return;
      }
      retired, order := Install(replacements, files);
      assert replacements.Keys != {} by {
        var i :| i in replacements;
      }
      EmptyCache();
    }

    /**
     Replaces every changed database that opens, and then empties the cache; returns the readers to close later,
     each exactly once. A closed provider has no readers to refresh.
     */
    method RefreshChanged(files: seq<Option<bytes>>) returns (retired: seq<Reader>, ghost order: seq<nat>)
      requires Valid() && |files| == readers.Length
      modifies this`dbs, readers, if cache == null then {} else {cache}
      ensures Valid() && dbs == if open then Refreshed(old(dbs), files, inMemory, floatToUint) else old(dbs)
      ensures var changed := if open then ChangedSlots(files, inMemory, floatToUint) else {};
              && TakenFrom(retired, old(readers[..]), order, changed)
              && (cache != null ==> cache.View() == if changed == {} then old(cache.View()) else Cache.EMPTY)
    {
      hide Reopened, Refreshed, TakenFrom, ChangedSlots, Db.Valid, Reader.View, Cache.ResultCache.Valid,
           Cache.ResultCache.View;
      if !open {
        retired, order := [], [];
        NothingTaken(readers[..]);
        return;
      }
      retired, order := RefreshOpen(files);
    }

    /** Releases every reader and leaves lookups no database. */
    method Close()
      requires Valid()
      modifies this`open, (set r | r in readers[..] :: r.mem), (set r | r in readers[..] :: r.file)
      ensures Valid() && !open && Seen() == []
      ensures old(open) ==> forall i :: 0 <= i < readers.Length ==> readers[i].Released()
    {
      if open {
        CloseAll(readers[..]);
      }
      open := false;
    }

    method EmptyCache()
      requires Valid()
      modifies if cache == null then {} else {cache}
      ensures Valid() && (cache != null ==> cache.View() == Cache.EMPTY)
    {
      if cache != null {
        cache.Clear();
      }
    }
  }

  /** Opens every database, or closes what was opened and reports the first that does not open. */
  method NewMmdbProvider(files: seq<bytes>, inMemory: bool, fieldCount: nat, formatter: Formatter,
                         floatToUint: Value -> nat, cache: Cache.ResultCache?)
    returns (r: Result<MmdbProvider>, ghost made: seq<Reader>)
    requires cache != null ==> cache.Valid()
    ensures r.Ok? <==> files != [] && forall i :: 0 <= i < |files| ==> OpenDb(files[i], inMemory, floatToUint).Ok?
    ensures files == [] ==> r == Err(NoDatabases)
    ensures files != [] && r.Err? ==>
              && 0 < |made| <= |files| && OpenDb(files[|made| - 1], inMemory, floatToUint) == Err(r.error)
              && (forall j :: 0 <= j < |made| - 1 ==> OpenDb(files[j], inMemory, floatToUint).Ok?)
              && forall j :: 0 <= j < |made| ==> made[j].Released()
    ensures r.Ok? ==> r.value.readers[..] == made
    ensures r.Ok? ==>
              && fresh(r.value) && r.value.Valid() && r.value.open && r.value.cache == cache
              && r.value.seekOnly == Provider.SeekOnly(fieldCount) && r.value.formatter == formatter
              && |r.value.dbs| == |files|
              && forall i :: 0 <= i < |files| ==> OpenDb(files[i], inMemory, floatToUint) == Ok(r.value.dbs[i])
  {
    hide OpenDb, Db.Valid, Provider.SeekOnly;
    made := [];
    if files == [] {
      r := Err(NoDatabases);
      return;
    }
    var loaded: seq<Reader> := [];
    ghost var dbs: seq<Db> := [];
    for i := 0 to |files|
      invariant |loaded| == |dbs| == i
      invariant forall j :: 0 <= j < i ==> fresh(loaded[j].mem) && fresh(loaded[j].file)
      invariant forall j :: 0 <= j < i ==>
                  OpenDb(files[j], inMemory, floatToUint) == Ok(dbs[j]) && loaded[j].View() == dbs[j]
    {
      ghost var last: Reader;
      var reader;
      reader, last := Reader.Open(files[i], inMemory, floatToUint);
      made := loaded + [last];
      if reader.Err? {
        CloseAll(loaded);
        r := Err(reader.error);
        return;
      }
      loaded := loaded + [reader.value];
      dbs := dbs + [reader.value.View()];
    }
    var p := new MmdbProvider(loaded, dbs, inMemory, Provider.SeekOnly(fieldCount), formatter, floatToUint, cache);
    made := loaded;
    r := Ok(p);
  }

  class Plugin {
    const provider: MmdbProvider
    const cache: Cache.ResultCache?
    const fields: seq<FieldDef>

    constructor (provider: MmdbProvider, cache: Cache.ResultCache?, fields: seq<FieldDef>)
      ensures this.provider == provider && this.cache == cache && this.fields == fields
    {
      this.provider := provider;
      this.cache := cache;
      this.fields := fields;
    }

    /** Answers from the cache when it can; otherwise looks up, and remembers the answer unless the lookup failed. */
    method Resolve(key: bytes, ip: Option<bytes>, now: int) returns (a: Provider.Answer)
      requires provider.Valid() && (cache != null ==> cache.Valid())
      modifies if cache == null then {} else {cache}
      ensures var hit := if cache == null then None else old(cache.View()).Get(key, now);
              if hit.Some? then a == Provider.Answer(hit.value.fields, hit.value.found, None)
              else (forall i :: 0 <= i < |provider.Seen()| ==> provider.Seen()[i].Valid()) &&
                   a == Provider.Lookup(provider.Seen(), provider.seekOnly, provider.formatter, ip, fields)
      ensures cache != null ==> cache.Valid()
      ensures cache != null ==>
                cache.View() == if old(cache.View()).Get(key, now).Some? || a.error.Some? then old(cache.View())
                                else
                                  Cache.Step(old(cache.View()), cache.maxEntries, cache.ttl,
                                             Cache.Event.Put(key, a.fields, a.found, now))
    {
      hide Provider.Lookup, Db.Valid;
      if cache != null {
        var entry := cache.Get(key, now);
        if entry.Some? {
          return Provider.Answer(entry.value.fields, entry.value.found, None);
        }
      }
      a := provider.Lookup(ip, fields);
      if a.error.None? && cache != null {
        cache.Put(key, a.fields, a.found, now);
      }
    }
  }
}
