/**
 Looking an address up in layered databases. A record answers paths either by seeking each one or from
 one whole decoding; the provider picks one of the two by the number of fields, and both must agree.
 */
module Provider {
  import opened Bytes
  import opened DataSection
  import opened Readers
  import opened Fields
  import Seeking

  const SEEK_FIELD_THRESHOLD: nat := 8
  const DOT: byte := 46

  /** The strategy picked when the provider is made. */
  function SeekOnly(fieldCount: nat): bool
  {
    fieldCount > 0 && fieldCount <= SEEK_FIELD_THRESHOLD
  }

  /** What a record at an offset answers for a dotted path. */
  function RecordValue(db: Db, offset: int, seekOnly: bool, path: bytes): Option<Value>
  {
    if seekOnly then
      var r := db.ValueAt(offset, Split(path, DOT));
      if r.Ok? then r.value else None
    else
      var r := db.RecordAt(offset);
      if r.Ok? then Seeking.ResolvePath(r.value, Split(path, DOT)) else None
  }

  /** A record of one address in one database, decoding at most once when it does not seek. */
  class MmdbRecord {
    const db: Db
    const offset: int
    const seekOnly: bool
    var decoded: Value
    var failed: bool

    /** The memo holds what decoding gives. */
    ghost predicate Valid()
      reads this
    {
      && (failed ==> db.RecordAt(offset).Err?)
      && (decoded != Nil ==> db.RecordAt(offset) == Ok(decoded))
      && (seekOnly ==> !failed)
    }

    constructor (db: Db, offset: int, seekOnly: bool)
      ensures Valid() && this.db == db && this.offset == offset && this.seekOnly == seekOnly
    {
      this.db := db;
      this.offset := offset;
      this.seekOnly := seekOnly;
      decoded := Nil;
      failed := false;
    }

    /** The answer does not depend on what was asked before. */
    method Value(path: bytes) returns (r: Option<Value>)
      requires Valid()
      modifies this
      ensures Valid() && r == RecordValue(db, offset, seekOnly, path)
    {
      hide Db.RecordAt, Db.ValueAt, Split, Seeking.ResolvePath;
      if failed {
        return None;
      }
      if !seekOnly {
        if decoded == Nil {
          var record := db.RecordAt(offset);
          if record.Err? {
            failed := true;
            return None;
          }
          decoded := record.value;
        }
        r := Seeking.ResolvePathLoop(decoded, Split(path, DOT));
      } else {
        var result := db.ValueAt(offset, Split(path, DOT));
        r := if result.Ok? then result.value else None;
      }
    }

    method ExtractField(f: Formatter, def: FieldDef) returns (r: Option<bytes>)
      requires Valid()
      modifies this
      ensures Valid() && r == f.Extract(path => RecordValue(db, offset, seekOnly, path), def)
    {
      hide Formatter.Format, RecordValue;
      r := ShownLoop(f, def.paths, def.kind);
      if r.Some? {
        return;
      }
      var present := ShownLoop(f, def.presence, KindString);
      r := if present.Some? then Some(f.trueValue) else None;
    }

    method ShownLoop(f: Formatter, paths: seq<bytes>, kind: Kind) returns (r: Option<bytes>)
      requires Valid()
      modifies this
      ensures Valid() && r == f.FirstShown(path => RecordValue(db, offset, seekOnly, path), paths, kind)
    {
      hide Formatter.Format, RecordValue;
      ghost var value := path => RecordValue(db, offset, seekOnly, path);
      assert paths[0..] == paths;
      for i := 0 to |paths|
        invariant Valid()
        invariant f.FirstShown(value, paths, kind) == f.FirstShown(value, paths[i..], kind)
      {
        assert paths[i..][0] == paths[i] && paths[i..][1..] == paths[i + 1..];
        var raw := Value(paths[i]);
        if raw.Some? {
          var s := f.FormatValue(raw.value, kind);
          if s != [] {
            return Some(s);
          }
        }
      }
      r := None;
    }
  }

  // The place of a record: a database and an offset in it.
  datatype Place = Place(db: Db, offset: int)

  function ValueOf(p: Place, seekOnly: bool): bytes -> Option<Value>
  {
    path => RecordValue(p.db, p.offset, seekOnly, path)
  }

  /** The field's value in the first record that has one. */
  function FirstRecord(places: seq<Place>, seekOnly: bool, f: Formatter, def: FieldDef): Option<bytes>
  {
    if places == [] then None
    else
      var r := f.Extract(ValueOf(places[0], seekOnly), def);
      if r.Some? then r else FirstRecord(places[1..], seekOnly, f, def)
  }

  /** Adds each field that some record has a value for. */
  function ExtractFields(places: seq<Place>, seekOnly: bool, f: Formatter, fields: seq<FieldDef>, acc: map<bytes,
                         bytes>): map<bytes, bytes>
    decreases |fields|
  {
    if fields == [] then acc
    else
      var r := FirstRecord(places, seekOnly, f, fields[0]);
      ExtractFields(places, seekOnly, f, fields[1..], if r.Some? then acc[fields[0].name := r.value] else acc)
  }

  /** The records of the databases, in order, that have one for the address. */
  function Places(dbs: seq<Db>, ip: Option<bytes>): seq<Place>
    requires forall i :: 0 <= i < |dbs| ==> dbs[i].Valid()
  {
    if dbs == [] then []
    else
      var r := dbs[0].LookupOffset(ip);
      (if r.Ok? && r.value.Some? then [Place(dbs[0], r.value.value)] else []) + Places(dbs[1..], ip)
  }

  /** The error of the first database whose search tree could not be walked. */
  function FirstError(dbs: seq<Db>, ip: Option<bytes>): Option<Failure>
    requires forall i :: 0 <= i < |dbs| ==> dbs[i].Valid()
  {
    if dbs == [] then None
    else
      var r := dbs[0].LookupOffset(ip);
      if r.Err? then Some(r.error) else FirstError(dbs[1..], ip)
  }

  datatype Answer = Answer(fields: map<bytes, bytes>, found: bool, error: Option<Failure>)

  function Lookup(dbs: seq<Db>, seekOnly: bool, f: Formatter, ip: Option<bytes>, fields: seq<FieldDef>): Answer
    requires forall i :: 0 <= i < |dbs| ==> dbs[i].Valid()
  {
    var places := Places(dbs, ip);
    if places == [] then Answer(map[], false, FirstError(dbs, ip))
    else Answer(ExtractFields(places, seekOnly, f, fields, map[]), true, FirstError(dbs, ip))
  }

  // -------------------------------------------------------------------------
  // The loops
  // -------------------------------------------------------------------------

  /** One record object for each place, no object standing for two. */
  ghost predicate Represent(records: seq<MmdbRecord>, places: seq<Place>, seekOnly: bool)
    reads records
  {
    && |records| == |places|
    && (forall j :: 0 <= j < |records| ==>
          records[j].Valid() && records[j].seekOnly == seekOnly && Place(records[j].db, records[j].offset) == places[j])
    && (forall j, k :: 0 <= j < k < |records| ==> records[j] != records[k])
  }

  method FirstRecordLoop(records: seq<MmdbRecord>, f: Formatter, def: FieldDef, ghost places: seq<Place>,
                         ghost seekOnly: bool)
    returns (r: Option<bytes>)
    requires Represent(records, places, seekOnly)
    modifies records
    ensures Represent(records, places, seekOnly) && r == FirstRecord(places, seekOnly, f, def)
  {
    hide Formatter.Extract, RecordValue;
    assert places[0..] == places;
    for i := 0 to |records|
      invariant Represent(records, places, seekOnly)
      invariant FirstRecord(places, seekOnly, f, def) == FirstRecord(places[i..], seekOnly, f, def)
    {
      assert places[i..][0] == places[i] && places[i..][1..] == places[i + 1..];
      r := records[i].ExtractField(f, def);
      SameExtract(f, places[i], seekOnly, def, records[i].db, records[i].offset);
      if r.Some? {
        return;
      }
    }
    r := None;
  }

  /** Extraction depends only on what the paths answer. */
  lemma SameExtract(f: Formatter, p: Place, seekOnly: bool, def: FieldDef, db: Db, offset: int)
    requires p == Place(db, offset)
    ensures f.Extract(path => RecordValue(db, offset, seekOnly, path), def) == f.Extract(ValueOf(p, seekOnly), def)
  {
    hide Formatter.Extract, RecordValue;
    ExtractSame(f, path => RecordValue(db, offset, seekOnly, path), ValueOf(p, seekOnly), def);
  }

  method ExtractFieldsLoop(records: seq<MmdbRecord>, f: Formatter, fields: seq<FieldDef>, ghost places: seq<Place>,
                           ghost seekOnly: bool)
    returns (out: map<bytes, bytes>)
    requires Represent(records, places, seekOnly)
    modifies records
    ensures out == ExtractFields(places, seekOnly, f, fields, map[])
  {
    hide FirstRecord;
    out := map[];
    assert fields[0..] == fields;
    for i := 0 to |fields|
      invariant Represent(records, places, seekOnly)
      invariant ExtractFields(places, seekOnly, f, fields, map[]) ==
                ExtractFields(places, seekOnly, f, fields[i..], out)
    {
      assert fields[i..][0] == fields[i] && fields[i..][1..] == fields[i + 1..];
      var r := FirstRecordLoop(records, f, fields[i], places, seekOnly);
      if r.Some? {
        out := out[fields[i].name := r.value];
      }
    }
  }

  lemma NothingRepresented(seekOnly: bool)
    ensures Represent([], [], seekOnly)
  {
  }

  method AddRecord(records: seq<MmdbRecord>, ghost places: seq<Place>, place: Place, seekOnly: bool)
    returns (longer: seq<MmdbRecord>)
    requires Represent(records, places, seekOnly)
    ensures |longer| == |records| + 1 && longer[..|records|] == records && fresh(longer[|records|])
    ensures Represent(longer, places + [place], seekOnly)
  {
    hide RecordValue, Db.RecordAt;
    var record := new MmdbRecord(place.db, place.offset, seekOnly);
    longer := records + [record];
  }

  /** The place one database contributes. */
  function PlaceIn(db: Db, ip: Option<bytes>): seq<Place>
    requires db.Valid()
  {
    var r := db.LookupOffset(ip);
    if r.Ok? && r.value.Some? then [Place(db, r.value.value)] else []
  }

  lemma OneMoreDatabase(dbs: seq<Db>, i: nat, ip: Option<bytes>)
    requires (forall j :: 0 <= j < |dbs| ==> dbs[j].Valid()) && i < |dbs|
    ensures Places(dbs[i..], ip) == PlaceIn(dbs[i], ip) + Places(dbs[i + 1..], ip)
    ensures var r := dbs[i].LookupOffset(ip);
            FirstError(dbs[i..], ip) == if r.Err? then Some(r.error) else FirstError(dbs[i + 1..], ip)
  {
    hide Db.LookupOffset, Db.Valid;
    assert dbs[i..][0] == dbs[i] && dbs[i..][1..] == dbs[i + 1..];
  }

  lemma NoMoreDatabases(dbs: seq<Db>, ip: Option<bytes>)
    requires forall j :: 0 <= j < |dbs| ==> dbs[j].Valid()
    ensures Places(dbs[|dbs|..], ip) == [] && FirstError(dbs[|dbs|..], ip) == None
  {
    assert dbs[|dbs|..] == [];
  }

  method CollectRecords(dbs: seq<Db>, seekOnly: bool, ip: Option<bytes>)
    returns (records: seq<MmdbRecord>, firstErr: Option<Failure>)
    requires forall i :: 0 <= i < |dbs| ==> dbs[i].Valid()
    ensures fresh(records) && Represent(records, Places(dbs, ip), seekOnly) && firstErr == FirstError(dbs, ip)
  {
    hide Db.LookupOffset, Db.Valid, RecordValue, Db.RecordAt, MmdbRecord.Valid, Represent, Places, FirstError;
    records := [];
    firstErr := None;
    ghost var places: seq<Place> := [];
    NothingRepresented(seekOnly);
    assert dbs[0..] == dbs;
    for i := 0 to |dbs|
      invariant fresh(records)
      invariant Represent(records, places, seekOnly)
      invariant Places(dbs, ip) == places + Places(dbs[i..], ip)
      invariant FirstError(dbs, ip) == if firstErr.Some? then firstErr else FirstError(dbs[i..], ip)
    {
      OneMoreDatabase(dbs, i, ip);
      assert places + (PlaceIn(dbs[i], ip) + Places(dbs[i + 1..], ip)) ==
             (places + PlaceIn(dbs[i], ip)) + Places(dbs[i + 1..], ip);
      var r := dbs[i].LookupOffsetLoop(ip);
      if r.Err? {
        if firstErr.None? {
          firstErr := Some(r.error);
        }
      } else if r.value.Some? {
        var place := Place(dbs[i], r.value.value);
        records := AddRecord(records, places, place, seekOnly);
        places := places + [place];
      }
    }
    NoMoreDatabases(dbs, ip);
    assert places + [] == places;
  }

  method LookupLoop(dbs: seq<Db>, seekOnly: bool, f: Formatter, ip: Option<bytes>, fields: seq<FieldDef>)
    returns (a: Answer)
    requires forall i :: 0 <= i < |dbs| ==> dbs[i].Valid()
    ensures a == Lookup(dbs, seekOnly, f, ip, fields)
  {
    hide Db.LookupOffset, Places, FirstError, ExtractFields;
    var records, firstErr := CollectRecords(dbs, seekOnly, ip);
    if records == [] {
      return Answer(map[], false, firstErr);
    }
    var out := ExtractFieldsLoop(records, f, fields, Places(dbs, ip), seekOnly);
    a := Answer(out, true, firstErr);
  }

  // -------------------------------------------------------------------------
  // Both strategies give the same fields
  // -------------------------------------------------------------------------

  /** The record decodes, and in each map on the path the first and last entries with the wanted key agree. */
  ghost predicate ReadableAt(p: Place, path: bytes)
  {
    var d := p.db.RecordDecoder(p.offset);
    d.Decode(p.offset, 0).Ok? && Seeking.RepeatsAgree(Seeking.TreeAt(d, p.offset), Split(path, DOT))
  }

  lemma ValueSame(p: Place, path: bytes)
    requires ReadableAt(p, path)
    ensures ShowSame(RecordValue(p.db, p.offset, true, path), RecordValue(p.db, p.offset, false, path))
  {
    hide Decoder.Decode, Decoder.ValueAt, Split, Db.RecordDecoder, Seeking.RepeatsAgree, Seeking.Resolve;
    Seeking.SeekMeansResolve(p.db.RecordDecoder(p.offset), p.offset, Split(path, DOT));
  }

  /** Records without repeated keys on the path are among them. */
  lemma UniqueIsReadable(p: Place, path: bytes)
    requires var d := p.db.RecordDecoder(p.offset);
             d.Decode(p.offset, 0).Ok? && Seeking.KeysUniqueOnPath(Seeking.TreeAt(d, p.offset), Split(path, DOT))
    ensures ReadableAt(p, path)
  {
    Seeking.UniqueKeysAgree(Seeking.TreeAt(p.db.RecordDecoder(p.offset), p.offset), Split(path, DOT));
  }

  /** Every record can be read at every path of the field. */
  ghost predicate Readable(places: seq<Place>, def: FieldDef)
  {
    forall i, path :: 0 <= i < |places| && path in PathsOf(def) ==> ReadableAt(places[i], path)
  }

  lemma {:induction false} FirstRecordSame(places: seq<Place>, f: Formatter, def: FieldDef)
    requires Readable(places, def)
    ensures FirstRecord(places, true, f, def) == FirstRecord(places, false, f, def)
  {
    hide Formatter.Extract, ReadableAt, RecordValue, PathsOf;
    if places != [] {
      forall path | path in PathsOf(def)
        ensures ShowSame(ValueOf(places[0], true)(path), ValueOf(places[0], false)(path))
      {
        ValueSame(places[0], path);
      }
      ExtractSame(f, ValueOf(places[0], true), ValueOf(places[0], false), def);
      var rest := places[1..];
      assert forall i :: 0 <= i < |rest| ==> rest[i] == places[i + 1];
      FirstRecordSame(rest, f, def);
    }
  }

  lemma {:induction false} ExtractFieldsSame(places: seq<Place>, f: Formatter, fields: seq<FieldDef>, acc: map<bytes,
                                             bytes>)
    requires forall i :: 0 <= i < |fields| ==> Readable(places, fields[i])
    ensures ExtractFields(places, true, f, fields, acc) == ExtractFields(places, false, f, fields, acc)
    decreases |fields|
  {
    hide FirstRecord, Readable;
    if fields != [] {
      FirstRecordSame(places, f, fields[0]);
      var r := FirstRecord(places, true, f, fields[0]);
      var rest := fields[1..];
      assert forall i :: 0 <= i < |rest| ==> rest[i] == fields[i + 1];
      ExtractFieldsSame(places, f, rest, if r.Some? then acc[fields[0].name := r.value] else acc);
    }
  }

  /**
   For records that decode and in which repeated keys agree on the paths in use, a lookup gives the same
   fields whichever strategy was picked, for every field list and order of databases.
   */
  lemma StrategiesAgree(dbs: seq<Db>, f: Formatter, ip: Option<bytes>, fields: seq<FieldDef>)
    requires forall i :: 0 <= i < |dbs| ==> dbs[i].Valid()
    requires forall i :: 0 <= i < |fields| ==> Readable(Places(dbs, ip), fields[i])
    ensures Lookup(dbs, true, f, ip, fields) == Lookup(dbs, false, f, ip, fields)
  {
    hide Places, Readable, ExtractFields;
    ExtractFieldsSame(Places(dbs, ip), f, fields, map[]);
  }
}
