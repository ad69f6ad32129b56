/**
 A request for which the headers matter: of two opened databases one has a corrupt search tree, and the
 record found in the other shows a field that only one of two header maps asks for.
 */
module PartialFailures {
  import opened Bytes
  import opened Sources
  import opened DataSection
  import opened FixtureEncoder
  import opened SearchTrees
  import opened Networks
  import opened Readers
  import opened Fields
  import opened Provider
  import opened BuiltDatabase
  import opened EndToEnd
  import opened PlainDatabases
  import opened BuiltRecords
  import opened Rules
  import opened Selection

  const US := Ascii("US")
  const PARIS := Ascii("Paris")
  const CITY := Ascii("city_name")
  const CITY_HEADER := Ascii("X-City")

  const COUNTRY_DEF := FieldDef(COUNTRY, KindString, [COUNTRY], [])
  const CITY_DEF := FieldDef(CITY, KindString, [CITY], [])

  /** The record of the sound database. */
  const CITY_RECORD := FMap(map[CITY := FString(PARIS)])

  lemma Texts()
    ensures CITY != COUNTRY && CITY != IP_FIELD && PARIS != [] && |US| == 2
    ensures DOT !in CITY && DOT !in COUNTRY && COMMA !in US
  {
    assert |CITY| == 9 && |COUNTRY| == 12 && |IP_FIELD| == 2 && |PARIS| == 5;
  }

  // -------------------------------------------------------------------------
  // A database whose walks never leave the tree
  // -------------------------------------------------------------------------

  /** A database file: what stands before the metadata, and the metadata. */
  function FileWith(front: bytes, meta: bytes): bytes
  {
    front + METADATA_MARKER + meta
  }

  /** One node whose records both lead back to it. */
  function CorruptFile(meta: bytes): bytes
  {
    FileWith(ZeroBytes(22), meta)
  }

  lemma {:induction false} WalkStays(t: SearchTree, bits: seq<bool>)
    requires t.Valid() && t.nodeCount == 1 && t.ReadNode(0) == Ok((0, 0))
    ensures t.Walk(0, bits) == Ok(0)
    decreases |bits|
  {
    hide SearchTree.ReadNode;
    if bits != [] {
      WalkStays(t, bits[1..]);
    }
  }

  lemma ZeroNode(meta: bytes)
    ensures SearchTree(Memory(CorruptFile(meta)).Reads(), 24, 1).ReadNode(0) == Ok((0, 0))
  {
    var file := CorruptFile(meta);
    assert file[0..6] == [0, 0, 0, 0, 0, 0];
    assert UnpackNode(24, file[0..6]) == (0, 0) by {
      assert file[0..6][..3] == FixedBytes(0, 3) && file[0..6][3..6] == FixedBytes(0, 3);
      LowBytes(0);
    }
  }

  /** A file with a search tree of one node opens, whatever its data section holds. */
  lemma OneNodeOpens(front: bytes, r: Recipe, floatToUint: Value -> nat)
    requires r.recordSize == 24 && r.ipVersion == 4 && Plain(r.databaseType) && |r.databaseType| < 29
    requires |front| >= 22
    ensures Encode(MetadataFixture(r, 1)).Some?
    ensures var file := FileWith(front, Encode(MetadataFixture(r, 1)).value);
            OpenDb(file, true, floatToUint) == Ok(Db(Memory(file), MetadataOf(r, 1), None, true))
  {
    hide Encode, MetadataFixture, Plain, ReadMetadata, OccursAt, MinimalBytes, ZeroBytes;
    OneByteNumber(1);
    PlainMetadata(r, 1);
    var meta := Encode(MetadataFixture(r, 1)).value;
    forall i
      ensures !OccursAt(meta, METADATA_MARKER, i)
    {
      PlainHasNoMarker(meta, i);
    }
    MetadataReadBack(front, r, 1, floatToUint);
  }

  lemma CorruptLookup(r: Recipe, meta: bytes, ip: bytes)
    requires r.recordSize == 24 && r.ipVersion == 4 && |ip| == 4
    ensures var db := Db(Memory(CorruptFile(meta)), MetadataOf(r, 1), None, true);
            db.Valid() && db.LookupOffset(Some(ip)) == Err(CorruptTree)
  {
    hide Bits, CorruptFile, UnpackNode, SearchTree.ReadNode;
    ZeroNode(meta);
    WalkStays(SearchTree(Memory(CorruptFile(meta)).Reads(), 24, 1), Bits(ip));
  }

  // -------------------------------------------------------------------------
  // A sound database with one record
  // -------------------------------------------------------------------------

  lemma CityRecordEncodes()
    ensures WellTyped(CITY_RECORD) && Encode(CITY_RECORD).Some? && Nesting(CITY_RECORD) <= MAX_DEPTH
    ensures Normalised(CITY_RECORD) == Map(map[CITY := Str(PARIS)])
  {
    hide Sorted, Ascii;
    assert |CITY| == 9 && |PARIS| == 5;
    assert CITY_RECORD.m.Keys == {CITY} && |CITY_RECORD.m| == 1;
    SortedSingleton(CITY);
    ShortStringLength(CITY);
    ShortStringLength(PARIS);
    assert [CITY][1..] == [];
    assert EncodePairs(CITY_RECORD, [CITY]) == Some(EncodeKey(CITY).value + Encode(FString(PARIS)).value + []);
    assert PairsNesting(CITY_RECORD, [CITY]) ==
           Max(1 + Nesting(FString(PARIS)), PairsNesting(CITY_RECORD, [CITY][1..]));
    assert Normalised(CITY_RECORD).m == map[CITY := Str(PARIS)];
  }

  function CityDatabase(ip: bytes): Recipe
  {
    Half(24, ip, CITY_RECORD)
  }

  /** The sound database as it opens. */
  ghost predicate IsCityDb(ip: bytes, db: Db)
  {
    var r := CityDatabase(ip);
    && r.Valid() && Sound(r) && db.Valid()
    && IsBuilt(r, db)
    && db.LookupOffset(Some(ip)) == Ok(Some(BaseOf(r) + r.Offset(0)))
  }

  lemma CityOpens(ip: bytes, floatToUint: Value -> nat)
    requires |ip| == 4
    ensures CityDatabase(ip).Valid() && Sound(CityDatabase(ip))
    ensures OpenDb(FileOf(CityDatabase(ip)), true, floatToUint).Ok?
    ensures var db := OpenDb(FileOf(CityDatabase(ip)), true, floatToUint).value; db.Valid() && IsCityDb(ip, db)
  {
    hide Sound, FileOf, CountOf, OpenDb, Bits, Recipe.Nodes, Recipe.Networks, Db.LookupOffset,
         SearchTree.Walk, Encode, WellTyped, Nesting, Source.Backs;
    var r := CityDatabase(ip);
    CityRecordEncodes();
    HalfIsSound(24, ip, CITY_RECORD);
    HalfNodes(24, ip, CITY_RECORD);
    OpensBuilt(r, true, floatToUint);
    LookupOffsetInMemory(r, floatToUint, ip);
    assert [Bits(ip)[0]] <= Bits(ip);
    assert Scan(r.Networks(), Bits(ip)) == Tries.Hit(0);
    assert r.Offset(0) == 0 by {
      assert r.Records()[..0] == [];
    }
  }

  /** Where the record is found. */
  ghost function CityPlace(ip: bytes, db: Db): Place
    requires IsCityDb(ip, db)
  {
    Place(db, BaseOf(CityDatabase(ip)) + CityDatabase(ip).Offset(0))
  }

  lemma CityRecordRead(ip: bytes, db: Db)
    requires IsCityDb(ip, db)
    ensures var p := CityPlace(ip, db); p.db == db && p.db.RecordAt(p.offset) == Ok(Map(map[CITY := Str(PARIS)]))
    ensures db.LookupOffset(Some(ip)) == Ok(Some(CityPlace(ip, db).offset))
  {
    hide Sound, FileOf, CountOf, Db.LookupOffset, Db.RecordAt, Recipe.Offset, Recipe.Nodes, WellTyped, Normalised,
         Ascii, IsBuilt,
         Encode, Nesting;
    CityRecordEncodes();
    RecordRead(CityDatabase(ip), db, 0);
  }

  lemma CityReadable(ip: bytes, db: Db, path: bytes)
    requires IsCityDb(ip, db)
    ensures ReadableAt(CityPlace(ip, db), path)
  {
    hide Sound, FileOf, CountOf, ReadableAt, Db.LookupOffset, Recipe.Offset, Recipe.Nodes, WellTyped, IsBuilt;
    BuiltRecordReadable(CityDatabase(ip), db, 0, path);
  }

  lemma CityPlaceHolds(ip: bytes, db: Db)
    requires IsCityDb(ip, db)
    ensures var p := CityPlace(ip, db); p.db == db && p.db.RecordAt(p.offset) == Ok(Map(map[CITY := Str(PARIS)]))
    ensures forall path :: ReadableAt(CityPlace(ip, db), path)
    ensures db.LookupOffset(Some(ip)) == Ok(Some(CityPlace(ip, db).offset))
  {
    hide *;
    CityRecordRead(ip, db);
    forall path
      ensures ReadableAt(CityPlace(ip, db), path)
    {
      CityReadable(ip, db, path);
    }
  }

  /** What a decoded record answers for a path of one part. */
  lemma OnePart(p: Place, m: map<bytes, Value>, path: bytes)
    requires p.db.RecordAt(p.offset) == Ok(Map(m)) && DOT !in path
    ensures RecordValue(p.db, p.offset, false, path) == if path in m && m[path] != Nil then Some(m[path]) else None
  {
    hide Split, Db.RecordAt, Db.ValueAt;
    SplitWithout(path, DOT);
    Seeking.ResolveOne(Map(m), [path]);
    assert [path][..1] == [path];
  }

  /** The only record decides what a field with one path shows. */
  lemma OneRecord(p: Place, seekOnly: bool, f: Formatter, name: bytes)
    ensures var raw := RecordValue(p.db, p.offset, seekOnly, name);
            FirstRecord([p], seekOnly, f, FieldDef(name, KindString, [name], [])) ==
            if raw.Some? && f.Format(raw.value, KindString) != [] then Some(f.Format(raw.value, KindString)) else None
  {
    hide RecordValue, Formatter.Format;
    var none: seq<bytes> := [];
    var one: seq<bytes> := [name];
    assert one[1..] == none;
    var places := [p];
    var value := ValueOf(p, seekOnly);
    assert value(name) == RecordValue(p.db, p.offset, seekOnly, name);
    assert f.FirstShown(value, none, KindString) == None;
    assert places[1..] == [] && FirstRecord([], seekOnly, f, FieldDef(name, KindString, one, none)) == None;
    var raw := RecordValue(p.db, p.offset, seekOnly, name);
    assert f.FirstShown(value, one, KindString) ==
           if raw.Some? && f.Format(raw.value, KindString) != [] then Some(f.Format(raw.value, KindString)) else None;
  }

  lemma OneRecordReadable(p: Place, name: bytes)
    requires forall path :: ReadableAt(p, path)
    ensures Readable([p], FieldDef(name, KindString, [name], []))
  {
    hide ReadableAt;
  }

  lemma CityRecordFields(ip: bytes, db: Db, f: Formatter)
    requires IsCityDb(ip, db) && f.text.trimSpace(PARIS) == PARIS
    ensures var places := [CityPlace(ip, db)];
            && FirstRecord(places, false, f, COUNTRY_DEF).None?
            && FirstRecord(places, false, f, CITY_DEF).Some?
            && Readable(places, COUNTRY_DEF) && Readable(places, CITY_DEF)
  {
    hide RecordValue, ReadableAt, Readable, FirstRecord, IsCityDb, CityPlace, Ascii, Db.RecordAt;
    var p := CityPlace(ip, db);
    Texts();
    CityPlaceHolds(ip, db);
    OnePart(p, map[CITY := Str(PARIS)], COUNTRY);
    OnePart(p, map[CITY := Str(PARIS)], CITY);
    OneRecord(p, false, f, COUNTRY);
    OneRecord(p, false, f, CITY);
    OneRecordReadable(p, COUNTRY);
    OneRecordReadable(p, CITY);
    assert f.Format(Str(PARIS), KindString) == PARIS;
  }

  // -------------------------------------------------------------------------
  // The selections
  // -------------------------------------------------------------------------

  function Known(): map<bytes, FieldDef>
  {
    Catalog([COUNTRY_DEF, CITY_DEF])
  }

  lemma KnownFields()
    ensures ByName(Known()) && Known().Keys == {COUNTRY, CITY}
    ensures Known()[COUNTRY] == COUNTRY_DEF && Known()[CITY] == CITY_DEF
  {
    hide Ascii;
    Texts();
    var defs := [COUNTRY_DEF, CITY_DEF];
    CatalogNames(defs);
    var one := [COUNTRY_DEF];
    assert defs[..1] == one && one[..0] == [];
    assert Catalog(one) == map[COUNTRY := COUNTRY_DEF];
    assert Known() == Catalog(one)[CITY := CITY_DEF];
  }

  lemma {:induction false} NoFlagFields(rules: seq<SecurityRule>)
    requires forall i :: 0 <= i < |rules| ==> !rules[i].enabled
    ensures FlagFields(rules) == []
    decreases |rules|
  {
    if rules != [] {
      NoFlagFields(rules[..|rules| - 1]);
    }
  }

  lemma CountryIsRequired()
    ensures RequiredFields(CountryRules({US})) == [COUNTRY]
  {
    hide Ascii, FlagFields;
    assert US in {US};
    NoFlagFields(SecurityRules(CountriesOnly([])));
  }

  /** Without headers only the country is selected; with one for the city, the city too. */
  lemma Selections()
    ensures var rs := CountryRules({US});
            && SelectFields(Known(), map[], rs).Ok? && SelectFields(Known(), map[CITY_HEADER := CITY], rs).Ok?
            && (forall def :: def in SelectFields(Known(), map[], rs).value <==> def == COUNTRY_DEF)
            && CITY_DEF in SelectFields(Known(), map[CITY_HEADER := CITY], rs).value
            && forall def :: def in SelectFields(Known(), map[CITY_HEADER := CITY], rs).value ==>
                 def in {COUNTRY_DEF, CITY_DEF}
  {
    hide Ascii, Catalog, RequiredFields, SelectFields, CountryRules;
    Texts();
    KnownFields();
    CountryIsRequired();
    var rs := CountryRules({US});
    var b := map[CITY_HEADER := CITY];
    assert Members([COUNTRY]) == {COUNTRY};
    assert Wanted(map[], rs) == {COUNTRY};
    assert HeaderFields(b, b.Keys) == {CITY} by {
      assert CITY_HEADER in b.Keys && b[CITY_HEADER] == CITY;
    }
    assert Wanted(b, rs) == {CITY, COUNTRY};
    SelectionIsExact(Known(), map[], rs);
    SelectionIsExact(Known(), b, rs);
  }

  // -------------------------------------------------------------------------
  // The two outcomes
  // -------------------------------------------------------------------------

  /** Both databases: the corrupt one first. */
  lemma BothDatabases(ip: bytes, floatToUint: Value -> nat) returns (files: seq<bytes>, dbs: seq<Db>)
    requires |ip| == 4
    ensures |files| == |dbs| == 2 && forall i :: 0 <= i < 2 ==>
              OpenDb(files[i], true, floatToUint) == Ok(dbs[i]) && dbs[i].Valid()
    ensures dbs[0].LookupOffset(Some(ip)) == Err(CorruptTree) && IsCityDb(ip, dbs[1])
  {
    hide Db.LookupOffset, OpenDb, FileOf, IsCityDb, FileWith, Encode, MetadataFixture, Sound, Plain;
    var r := CityDatabase(ip);
    PlainAscii("half");
    OneNodeOpens(ZeroBytes(22), r, floatToUint);
    var meta := Encode(MetadataFixture(r, 1)).value;
    CorruptLookup(r, meta, ip);
    CityOpens(ip, floatToUint);
    files := [CorruptFile(meta), FileOf(r)];
    dbs := [Db(Memory(CorruptFile(meta)), MetadataOf(r, 1), None, true), OpenDb(files[1], true, floatToUint).value];
  }

  lemma BothAnswer(ip: bytes, dbs: seq<Db>)
    requires |dbs| == 2 && (forall i :: 0 <= i < 2 ==> dbs[i].Valid())
    requires dbs[0].LookupOffset(Some(ip)) == Err(CorruptTree) && IsCityDb(ip, dbs[1])
    ensures Places(dbs, Some(ip)) == [CityPlace(ip, dbs[1])]
    ensures FirstError(dbs, Some(ip)) == Some(CorruptTree)
  {
    hide Db.LookupOffset, IsCityDb, CityPlace, ReadableAt, Db.RecordAt;
    hide Places, FirstError;
    CityPlaceHolds(ip, dbs[1]);
    OneMoreDatabase(dbs, 0, Some(ip));
    OneMoreDatabase(dbs, 1, Some(ip));
    NoMoreDatabases(dbs, Some(ip));
    assert dbs[0..] == dbs;
    assert [] + ([CityPlace(ip, dbs[1])] + []) == [CityPlace(ip, dbs[1])];
  }

  /**
   When a database fails, the headers can decide what is done with a request: here no header passes it, because
   without any field the gate fails open, and a header for the city has it denied by the rules.
   */
  lemma FailuresMakeHeadersMatter(text: Rules.Text, f: Formatter, floatToUint: Value -> nat, ip: bytes)
    returns (files: seq<bytes>, dbs: seq<Db>, known: map<bytes, FieldDef>, cfg: Config, a: map<bytes, bytes>,
             b: map<bytes, bytes>, gate: Gate)
    requires |ip| == 4 && IsCountryCode(text, US) && text.upper([]) == [] && f.text.trimSpace(PARIS) == PARIS
    ensures |files| == |dbs| == 2 && forall i :: 0 <= i < 2 ==>
              OpenDb(files[i], true, floatToUint) == Ok(dbs[i]) && dbs[i].Valid()
    ensures WellFormed(Compiled(cfg, text)) && ByName(known) && a == map[]
    ensures forall name :: name in known ==> Readable(Places(dbs, Some(ip)), known[name])
    ensures FirstError(dbs, Some(ip)) == Some(CorruptTree)
    ensures var rs := Compiled(cfg, text);
            && SelectFields(known, a, rs).Ok? && SelectFields(known, b, rs).Ok?
            && Serve(gate, rs, text, Some(ip), false, Resolved(dbs, f, Some(ip), SelectFields(known, a, rs).value)) ==
               Judged(true)
            && Serve(gate, rs, text, Some(ip), false, Resolved(dbs, f, Some(ip), SelectFields(known, b, rs).value)) ==
               Judged(false)
  {
    hide *;
    files, dbs := BothDatabases(ip, floatToUint);
    known, cfg, a, b := Known(), CountriesOnly([US]), map[], map[CITY_HEADER := CITY];
    gate := Gate([], [], false, true);
    CountriesCompiled(text, US);
    KnownFields();
    Selections();
    BothAnswer(ip, dbs);
    CityRecordFields(ip, dbs[1], f);
    BothOutcomes(text, f, ip, dbs, gate);
  }

  lemma BothOutcomes(text: Rules.Text, f: Formatter, ip: bytes, dbs: seq<Db>, gate: Gate)
    requires |dbs| == 2 && (forall i :: 0 <= i < 2 ==> dbs[i].Valid()) && text.upper([]) == []
    requires gate == Gate([], [], false, true)
    requires FirstError(dbs, Some(ip)) == Some(CorruptTree) && Places(dbs, Some(ip)) != []
    requires Readable(Places(dbs, Some(ip)), COUNTRY_DEF) && Readable(Places(dbs, Some(ip)), CITY_DEF)
    requires FirstRecord(Places(dbs, Some(ip)), false, f, COUNTRY_DEF).None? &&
             FirstRecord(Places(dbs, Some(ip)), false, f, CITY_DEF).Some?
    ensures var rs := CountryRules({US});
            var a, b := SelectFields(Known(), map[], rs), SelectFields(Known(), map[CITY_HEADER := CITY], rs);
            && a.Ok? && b.Ok?
            && Serve(gate, rs, text, Some(ip), false, Resolved(dbs, f, Some(ip), a.value)) == Judged(true)
            && Serve(gate, rs, text, Some(ip), false, Resolved(dbs, f, Some(ip), b.value)) == Judged(false)
  {
    hide Ascii, Evaluate, SelectFields, CountryRules, Readable, Places, FirstError, FirstRecord, Db.Valid, Catalog,
         ExtractFields, SeekOnly;
    var rs := CountryRules({US});
    Selections();
    KnownFields();
    CountryIsRequired();
    FirstRecordSame(Places(dbs, Some(ip)), f, COUNTRY_DEF);
    FirstRecordSame(Places(dbs, Some(ip)), f, CITY_DEF);
    var defsA := SelectFields(Known(), map[], rs).value;
    var defsB := SelectFields(Known(), map[CITY_HEADER := CITY], rs).value;
    forall i | 0 <= i < |defsA|
      ensures defsA[i] == COUNTRY_DEF
    {
      assert defsA[i] in defsA;
    }
    forall i | 0 <= i < |defsB|
      ensures defsB[i] in {COUNTRY_DEF, CITY_DEF}
    {
      assert defsB[i] in defsB;
    }
    NoFieldsIff(dbs, f, Some(ip), defsA);
    NoFieldsIff(dbs, f, Some(ip), defsB);
    var k :| 0 <= k < |defsB| && defsB[k] == CITY_DEF;
    var x, y := Resolved(dbs, f, Some(ip), defsA), Resolved(dbs, f, Some(ip), defsB);
    assert x.fields == map[] && y.fields != map[];
    VerdictIgnoresHeaders(Known(), rs, text, map[], map[CITY_HEADER := CITY], dbs, f, Some(ip));
    CountryVerdict(text, {US}, x.fields);
    assert US in {US};
  }
}
