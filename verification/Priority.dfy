/**
 Which database and which path decide a field, stated over whole lookups: the first database, in order, that has a
 record showing the field, and in it the first path that shows anything.
 */
module Priority {
  import opened Bytes
  import opened DataSection
  import opened Readers
  import opened Fields
  import opened Provider
  import opened Selection

  /** What a record shows for a path. */
  function Shows(f: Formatter, value: bytes -> Option<Value>, path: bytes, kind: Kind): bytes
  {
    if value(path).Some? then f.Format(value(path).value, kind) else []
  }

  /** The path at `i` shows `v`, and none before it shows anything. */
  predicate ShownAt(f: Formatter, value: bytes -> Option<Value>, paths: seq<bytes>, kind: Kind, i: int, v: bytes)
  {
    && 0 <= i < |paths| && v != [] && Shows(f, value, paths[i], kind) == v
    && forall j :: 0 <= j < i ==> Shows(f, value, paths[j], kind) == []
  }

  /** The first of the paths that shows anything shows `v`. */
  ghost predicate FirstToShow(f: Formatter, value: bytes -> Option<Value>, paths: seq<bytes>, kind: Kind, v: bytes)
  {
    exists i :: ShownAt(f, value, paths, kind, i, v)
  }

  predicate NoneShows(f: Formatter, value: bytes -> Option<Value>, paths: seq<bytes>, kind: Kind)
  {
    forall i :: 0 <= i < |paths| ==> Shows(f, value, paths[i], kind) == []
  }

  lemma {:induction false} FirstShownIff(f: Formatter, value: bytes -> Option<Value>, paths: seq<bytes>, kind: Kind,
                                         v: bytes)
    ensures f.FirstShown(value, paths, kind) == Some(v) <==> FirstToShow(f, value, paths, kind, v)
    decreases |paths|
  {
    hide Formatter.Format, Shows, Formatter.FirstShown;
    NothingShown(f, value, kind);
    if paths != [] {
      var rest := paths[1..];
      assert forall i :: 0 < i < |paths| ==> paths[i] == rest[i - 1];
      OneShown(f, value, paths, kind);
      FirstShownIff(f, value, rest, kind, v);
      if Shows(f, value, paths[0], kind) == [] {
        if i :| ShownAt(f, value, rest, kind, i, v) {
          assert ShownAt(f, value, paths, kind, i + 1, v);
        }
        if i :| ShownAt(f, value, paths, kind, i, v) {
          assert forall j :: 0 <= j < |rest| ==> rest[j] == paths[j + 1];
          assert ShownAt(f, value, rest, kind, i - 1, v);
        }
      } else if Shows(f, value, paths[0], kind) == v {
        assert ShownAt(f, value, paths, kind, 0, v);
      }
    }
  }

  lemma NothingShown(f: Formatter, value: bytes -> Option<Value>, kind: Kind)
    ensures f.FirstShown(value, [], kind) == None
  {
  }

  lemma OneShown(f: Formatter, value: bytes -> Option<Value>, paths: seq<bytes>, kind: Kind)
    requires paths != []
    ensures var own := Shows(f, value, paths[0], kind);
            f.FirstShown(value, paths, kind) == if own != [] then Some(own) else f.FirstShown(value, paths[1..], kind)
  {
    hide Formatter.Format;
  }

  lemma {:induction false} NoneShownIff(f: Formatter, value: bytes -> Option<Value>, paths: seq<bytes>, kind: Kind)
    ensures f.FirstShown(value, paths, kind) == None <==> NoneShows(f, value, paths, kind)
    decreases |paths|
  {
    hide Formatter.Format, Shows;
    if paths != [] {
      OneShown(f, value, paths, kind);
      NoneShownIff(f, value, paths[1..], kind);
      assert forall i :: 0 <= i < |paths[1..]| ==> paths[1..][i] == paths[i + 1];
      assert forall i :: 0 < i < |paths| ==> paths[i] == paths[1..][i - 1];
    }
  }

  /**
   A record gives a field exactly the text of the first of its paths that shows any; or, when none does, the
   configured text for true if one of its presence paths shows anything.
   */
  lemma ExtractIff(f: Formatter, value: bytes -> Option<Value>, def: FieldDef, v: bytes)
    ensures f.Extract(value, def) == Some(v) <==>
            || FirstToShow(f, value, def.paths, def.kind, v)
            || (NoneShows(f, value, def.paths, def.kind) && !NoneShows(f, value, def.presence, KindString) &&
                v == f.trueValue)
    ensures f.Extract(value, def) == None <==>
            NoneShows(f, value, def.paths, def.kind) && NoneShows(f, value, def.presence, KindString)
  {
    hide Formatter.FirstShown, FirstToShow, NoneShows;
    FirstShownIff(f, value, def.paths, def.kind, v);
    NoneShownIff(f, value, def.paths, def.kind);
    NoneShownIff(f, value, def.presence, KindString);
  }

  /** A path of two parts with a dot between them reads what the map under the first part holds under the second. */
  lemma DottedPath(p: Place, m: map<bytes, Value>, first: bytes, second: bytes, seekOnly: bool)
    requires p.db.RecordAt(p.offset) == Ok(Map(m)) && first in m && m[first].Map? && second in m[first].m
    requires '.' as int !in first && '.' as int !in second && m[first].m[second] != Nil
    requires seekOnly ==> ReadableAt(p, first + ['.' as int] + second)
    ensures RecordValue(p.db, p.offset, seekOnly, first + ['.' as int] + second) == Some(m[first].m[second])
  {
    hide Split, Db.RecordAt, Db.ValueAt, ReadableAt;
    var path := first + ['.' as int] + second;
    SplitAppends(first, second, DOT);
    SplitWithout(first, DOT);
    SplitWithout(second, DOT);
    var parts := Split(path, DOT);
    assert parts == [first, second] && parts[1..] == [second];
    Seeking.ResolveOne(m[first], [second]);
    assert [second][..1] == [second];
    assert Seeking.Resolve(Map(m), parts) == Seeking.Resolve(m[first], [second]);
    assert RecordValue(p.db, p.offset, false, path) == Some(m[first].m[second]);
    if seekOnly {
      ValueSame(p, path);
    }
  }

  // -------------------------------------------------------------------------
  // Databases in order
  // -------------------------------------------------------------------------

  /** What one database shows for a field: nothing when it has no record for the address. */
  function ShownBy(db: Db, ip: Option<bytes>, seekOnly: bool, f: Formatter, def: FieldDef): Option<bytes>
    requires db.Valid()
  {
    var offset := db.LookupOffset(ip);
    if offset.Ok? && offset.value.Some? then
      f.Extract(path => RecordValue(db, offset.value.value, seekOnly, path), def)
    else None
  }

  /** Database `i` shows the field as `v`, and no database before it shows the field. */
  predicate Decides(dbs: seq<Db>, ip: Option<bytes>, seekOnly: bool, f: Formatter, def: FieldDef, i: int, v: bytes)
    requires forall j :: 0 <= j < |dbs| ==> dbs[j].Valid()
  {
    && 0 <= i < |dbs| && ShownBy(dbs[i], ip, seekOnly, f, def) == Some(v)
    && forall j :: 0 <= j < i ==> ShownBy(dbs[j], ip, seekOnly, f, def) == None
  }

  lemma OwnPlace(db: Db, ip: Option<bytes>, seekOnly: bool, f: Formatter, def: FieldDef, rest: seq<Place>)
    requires db.Valid()
    ensures var shown := ShownBy(db, ip, seekOnly, f, def);
            FirstRecord(PlaceIn(db, ip) + rest, seekOnly, f, def) ==
            if shown.Some? then shown else FirstRecord(rest, seekOnly, f, def)
  {
    hide Formatter.Extract, RecordValue, Db.LookupOffset;
    var offset := db.LookupOffset(ip);
    if offset.Ok? && offset.value.Some? {
      var p := Place(db, offset.value.value);
      assert ([p] + rest)[1..] == rest;
      SameExtract(f, p, seekOnly, def, db, p.offset);
    } else {
      assert [] + rest == rest;
    }
  }

  lemma {:induction false} FirstRecordIff(dbs: seq<Db>, ip: Option<bytes>, seekOnly: bool, f: Formatter, def: FieldDef,
                                          v: bytes)
    requires forall j :: 0 <= j < |dbs| ==> dbs[j].Valid()
    ensures FirstRecord(Places(dbs, ip), seekOnly, f, def) == Some(v) <==>
            exists i :: Decides(dbs, ip, seekOnly, f, def, i, v)
    decreases |dbs|
  {
    hide ShownBy, FirstRecord, Db.LookupOffset, Db.Valid;
    if dbs == [] {
      NoPlaces(seekOnly, f, def);
    } else {
      var rest := dbs[1..];
      assert forall i :: 0 < i < |dbs| ==> dbs[i] == rest[i - 1];
      assert Places(dbs, ip) == PlaceIn(dbs[0], ip) + Places(rest, ip);
      OwnPlace(dbs[0], ip, seekOnly, f, def, Places(rest, ip));
      FirstRecordIff(rest, ip, seekOnly, f, def, v);
      var own := ShownBy(dbs[0], ip, seekOnly, f, def);
      if own == Some(v) {
        assert Decides(dbs, ip, seekOnly, f, def, 0, v);
      }
      if own.None? {
        if i :| Decides(rest, ip, seekOnly, f, def, i, v) {
          assert Decides(dbs, ip, seekOnly, f, def, i + 1, v);
        }
        if i :| Decides(dbs, ip, seekOnly, f, def, i, v) {
          assert forall j :: 0 <= j < i - 1 ==> ShownBy(rest[j], ip, seekOnly, f, def) ==
                                                ShownBy(dbs[j + 1], ip, seekOnly, f, def);
          assert Decides(rest, ip, seekOnly, f, def, i - 1, v);
        }
      }
    }
  }

  lemma NoPlaces(seekOnly: bool, f: Formatter, def: FieldDef)
    ensures FirstRecord([], seekOnly, f, def) == None
  {
  }

  /** A selected field is extracted from the records on its own. */
  lemma {:induction false} ExtractedIff(places: seq<Place>, seekOnly: bool, f: Formatter, defs: seq<FieldDef>,
                                        acc: map<bytes, bytes>, k: nat)
    requires Distinct(defs) && k < |defs| && forall i :: 0 <= i < |defs| ==> defs[i].name !in acc
    ensures var out := ExtractFields(places, seekOnly, f, defs, acc);
            var r := FirstRecord(places, seekOnly, f, defs[k]);
            if r.Some? then defs[k].name in out && out[defs[k].name] == r.value else defs[k].name !in out
    decreases |defs|
  {
    hide FirstRecord;
    var r := FirstRecord(places, seekOnly, f, defs[0]);
    var rest := defs[1..];
    var next := if r.Some? then acc[defs[0].name := r.value] else acc;
    assert forall i :: 0 <= i < |rest| ==> rest[i] == defs[i + 1];
    if k == 0 {
      NamesKept(places, seekOnly, f, rest, next, defs[0].name);
    } else {
      ExtractedIff(places, seekOnly, f, rest, next, k - 1);
    }
  }

  lemma {:induction false} NamesKept(places: seq<Place>, seekOnly: bool, f: Formatter, defs: seq<FieldDef>,
                                     acc: map<bytes, bytes>, name: bytes)
    requires forall i :: 0 <= i < |defs| ==> defs[i].name != name
    ensures var out := ExtractFields(places, seekOnly, f, defs, acc);
            (name in out <==> name in acc) && (name in acc ==> out[name] == acc[name])
    decreases |defs|
  {
    hide FirstRecord;
    if defs != [] {
      var r := FirstRecord(places, seekOnly, f, defs[0]);
      assert forall i :: 0 <= i < |defs[1..]| ==> defs[1..][i] == defs[i + 1];
      NamesKept(places, seekOnly, f, defs[1..], if r.Some? then acc[defs[0].name := r.value] else acc, name);
    }
  }

  /**
   The first database wins: a selected field is in the answer of a lookup with a value exactly when some database
   shows that value for it and no database before shows it at all.
   */
  lemma FirstDatabaseWins(dbs: seq<Db>, seekOnly: bool, f: Formatter, ip: Option<bytes>, defs: seq<FieldDef>, k: nat,
                          v: bytes)
    requires (forall j :: 0 <= j < |dbs| ==> dbs[j].Valid()) && Distinct(defs) && k < |defs|
    ensures var fields := Lookup(dbs, seekOnly, f, ip, defs).fields;
            defs[k].name in fields && fields[defs[k].name] == v <==>
            exists i :: Decides(dbs, ip, seekOnly, f, defs[k], i, v)
  {
    hide Decides, FirstRecord, ExtractFields, Db.Valid, FirstError, Places;
    FirstRecordIff(dbs, ip, seekOnly, f, defs[k], v);
    if Places(dbs, ip) == [] {
      NoPlaces(seekOnly, f, defs[k]);
    } else {
      ExtractedIff(Places(dbs, ip), seekOnly, f, defs, map[], k);
    }
  }

  /** Nothing else is in the answer. */
  lemma OnlySelectedFields(dbs: seq<Db>, seekOnly: bool, f: Formatter, ip: Option<bytes>, defs: seq<FieldDef>,
                           name: bytes)
    requires forall j :: 0 <= j < |dbs| ==> dbs[j].Valid()
    requires forall k :: 0 <= k < |defs| ==> defs[k].name != name
    ensures name !in Lookup(dbs, seekOnly, f, ip, defs).fields
  {
    hide FirstRecord, ExtractFields, Db.Valid, FirstError, Places;
    NamesKept(Places(dbs, ip), seekOnly, f, defs, map[], name);
  }

  predicate FailsAt(dbs: seq<Db>, ip: Option<bytes>, i: int, e: Failure)
    requires forall j :: 0 <= j < |dbs| ==> dbs[j].Valid()
  {
    0 <= i < |dbs| && dbs[i].LookupOffset(ip) == Err(e) && forall j :: 0 <= j < i ==> dbs[j].LookupOffset(ip).Ok?
  }

  /** The first walk that fails gives the error of the answer. */
  lemma {:induction false} FirstErrorIff(dbs: seq<Db>, ip: Option<bytes>, e: Failure)
    requires forall j :: 0 <= j < |dbs| ==> dbs[j].Valid()
    ensures FirstError(dbs, ip) == Some(e) <==> exists i :: FailsAt(dbs, ip, i, e)
    decreases |dbs|
  {
    hide Db.LookupOffset, Db.Valid;
    if dbs != [] {
      var rest := dbs[1..];
      assert forall i :: 0 < i < |dbs| ==> dbs[i] == rest[i - 1];
      FirstErrorIff(rest, ip, e);
      if dbs[0].LookupOffset(ip).Ok? {
        if i :| FailsAt(rest, ip, i, e) {
          assert FailsAt(dbs, ip, i + 1, e);
        }
        if i :| FailsAt(dbs, ip, i, e) {
          assert forall j :: 0 <= j < |rest| ==> rest[j] == dbs[j + 1];
          assert FailsAt(rest, ip, i - 1, e);
        }
      } else if dbs[0].LookupOffset(ip) == Err(e) {
        assert FailsAt(dbs, ip, 0, e);
      }
    }
  }

  predicate HasRecord(db: Db, ip: Option<bytes>)
    requires db.Valid()
  {
    db.LookupOffset(ip).Ok? && db.LookupOffset(ip).value.Some?
  }

  lemma {:induction false} PlacesIff(dbs: seq<Db>, ip: Option<bytes>)
    requires forall j :: 0 <= j < |dbs| ==> dbs[j].Valid()
    ensures Places(dbs, ip) != [] <==> exists i :: 0 <= i < |dbs| && HasRecord(dbs[i], ip)
    decreases |dbs|
  {
    hide Db.LookupOffset, Db.Valid;
    if dbs != [] {
      var rest := dbs[1..];
      PlacesIff(rest, ip);
      assert forall i :: 0 < i < |dbs| ==> dbs[i] == rest[i - 1];
      if i :| 0 <= i < |rest| && HasRecord(rest[i], ip) {
        assert HasRecord(dbs[i + 1], ip);
      }
      if HasRecord(dbs[0], ip) {
        assert Places(dbs, ip) != [];
      } else if i :| 0 <= i < |dbs| && HasRecord(dbs[i], ip) {
        assert HasRecord(rest[i - 1], ip);
      }
    }
  }

  /** An answer is found exactly when some database has a record, and fails with the first walk that does. */
  lemma FoundAndFailedIff(dbs: seq<Db>, seekOnly: bool, f: Formatter, ip: Option<bytes>, defs: seq<FieldDef>,
                          e: Failure)
    requires forall j :: 0 <= j < |dbs| ==> dbs[j].Valid()
    ensures var a := Lookup(dbs, seekOnly, f, ip, defs);
            && (a.found <==> exists i :: 0 <= i < |dbs| && HasRecord(dbs[i], ip))
            && (a.error == Some(e) <==> exists i :: FailsAt(dbs, ip, i, e))
  {
    hide Places, FirstError, ExtractFields, FailsAt, HasRecord, Db.Valid;
    PlacesIff(dbs, ip);
    FirstErrorIff(dbs, ip, e);
  }
}
