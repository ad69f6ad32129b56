/**
 A record on which the strategy decides the verdict: its country is found by seeking, and hidden from decoding
 by an entry that does not decode. A request from it is let in exactly while few enough fields are selected,
 and so a header for a field that the rules do not read can have it denied.
 */
module StrategyFlips {
  import opened Bytes
  import opened Sources
  import opened DataSection
  import opened Grammar
  import opened FixtureEncoder
  import opened SearchTrees
  import opened Readers
  import opened Fields
  import opened Provider
  import opened Rules
  import opened Selection
  import opened PartialFailures
  import opened EndToEnd
  import opened PlainDatabases

  const OTHER := Ascii("x")

  // -------------------------------------------------------------------------
  // The record
  // -------------------------------------------------------------------------

  /** {country_code: "US", x: <type 16>} */
  function BrokenRecord(): bytes
  {
    ShortNames();
    [0xE2] + (Encoded(COUNTRY) + (Encoded(US) + (Encoded(OTHER) + [0x00, 0x09])))
  }

  predicate Short(s: bytes)
  {
    |s| < 29
  }

  function Encoded(s: bytes): bytes
    requires Short(s)
  {
    ShortStringLength(s);
    Encode(FString(s)).value
  }

  lemma ShortNames()
    ensures Short(COUNTRY) && Short(US) && Short(OTHER) && OTHER != COUNTRY
  {
    assert |COUNTRY| == 12 && |US| == 2 && |OTHER| == 1;
  }

  /** An encoded string in place. */
  lemma StringDerives(d: Decoder, off: int, s: bytes, after: bytes)
    requires Short(s) && RoundTrip.Holds(d, off, Encoded(s) + after)
    ensures Derives(d, Leaf(off, off + |Encoded(s)|, Str(s)))
    ensures RoundTrip.Holds(d, off + |Encoded(s)|, after)
  {
    hide Decoder.ReadHead, Decoder.DecodePointer, Decoder.DecodeScalar, RoundTrip.Holds, Encode;
    ShortStringLength(s);
    RoundTrip.HoldsParts(d, off, Encoded(s), after);
    RoundTrip.EncodingDerives(d, off, FString(s));
  }

  lemma PairHead(d: Decoder, off: int, after: bytes)
    requires RoundTrip.Holds(d, off, [0xE2] + after)
    ensures d.ReadHead(off) == Ok(Data(TYPE_MAP, 2, off + 1)) && RoundTrip.Holds(d, off + 1, after)
  {
    RoundTrip.HoldsParts(d, off, [0xE2], after);
    RoundTrip.HoldsAll(d, off, [0xE2]);
  }

  lemma UnknownTypeHeld(d: Decoder, off: int)
    requires RoundTrip.Holds(d, off, [0x00, 0x09])
    ensures forall depth: nat :: d.Decode(off, depth).Err?
  {
    RoundTrip.HoldsPart(d, off, [0x00, 0x09], 0, 1);
    RoundTrip.HoldsPart(d, off, [0x00, 0x09], 1, 1);
    var bad: bytes := [0x00, 0x09];
    assert bad[0..1] == [0x00] && bad[1..2] == [0x09];
    Seeking.UnknownTypeFails(d, off);
  }

  /** Seeking finds the country, and decoding fails. */
  lemma BrokenRecordRead(d: Decoder, off: int)
    requires RoundTrip.Holds(d, off, BrokenRecord())
    ensures d.Decode(off, 0).Err? && d.ValueAt(off, [COUNTRY]) == Ok(Some(Str(US)))
  {
    hide Decoder.ReadHead, Decoder.Decode, Decoder.DecodeEntry, Decoder.ValueAt, Ascii, Encoded, RoundTrip.Holds;
    hide Decoder.DecodePointer, Decoder.DecodeScalar;
    ShortNames();
    var bad := [0x00, 0x09];
    var key, val := off + 1, off + 1 + |Encoded(COUNTRY)|;
    var other := val + |Encoded(US)|;
    PairHead(d, off, Encoded(COUNTRY) + (Encoded(US) + (Encoded(OTHER) + bad)));
    StringDerives(d, key, COUNTRY, Encoded(US) + (Encoded(OTHER) + bad));
    StringDerives(d, val, US, Encoded(OTHER) + bad);
    StringDerives(d, other, OTHER, bad);
    UnknownTypeHeld(d, other + |Encoded(OTHER)|);
    Seeking.UndecodableEntry(d, Leaf(other, other + |Encoded(OTHER)|, Str(OTHER)), 1);
    var es := Entries.Entry(Leaf(key, val, Str(COUNTRY)), Leaf(val, other, Str(US)), NoEntries);
    Seeking.UndecodableSibling(d, off, 2, es, key, other, COUNTRY);
  }

  // -------------------------------------------------------------------------
  // The database
  // -------------------------------------------------------------------------

  /** One node whose records both lead to the start of the data section, the separator, and the record. */
  function Front(): bytes
  {
    PackNode(24, 17, 17) + ZeroBytes(16) + BrokenRecord()
  }

  lemma NodeRead(file: bytes)
    requires |file| >= 6 && file[..6] == PackNode(24, 17, 17)
    ensures SearchTree(Memory(file).Reads(), 24, 1).ReadNode(0) == Ok((17, 17))
  {
    hide PackNode, UnpackNode;
    NodeRoundTrip(24, 17, 17);
    assert file[0..6] == file[..6];
  }

  lemma WalkLeaves(t: SearchTree, bits: seq<bool>)
    requires t.Valid() && t.nodeCount == 1 && t.ReadNode(0) == Ok((17, 17)) && bits != []
    ensures t.Walk(0, bits) == Ok(17)
  {
    hide SearchTree.ReadNode;
    LeftAlready(t, bits[1..]);
  }

  lemma LeftAlready(t: SearchTree, bits: seq<bool>)
    requires t.Valid() && t.nodeCount == 1
    ensures t.Walk(17, bits) == Ok(17)
  {
  }

  /** The opened database leads the address to the record. */
  ghost predicate LeadsToRecord(db: Db, ip: bytes)
    requires db.Valid()
  {
    && db.LookupOffset(Some(ip)) == Ok(Some(22))
    && db.RecordAt(22).Err? && db.ValueAt(22, [COUNTRY]) == Ok(Some(Str(US)))
  }

  lemma BrokenDatabase(ip: bytes, floatToUint: Value -> nat) returns (file: bytes, db: Db)
    requires |ip| == 4
    ensures OpenDb(file, true, floatToUint) == Ok(db) && db.Valid() && LeadsToRecord(db, ip)
  {
    hide OpenDb, Encode, BuiltDatabase.MetadataFixture, Db.LookupOffset, PackNode, Ascii, Plain, BrokenRecord, Bits;
    hide Decoder.Decode, Decoder.ValueAt, RoundTrip.Holds;
    var r := CityDatabase(ip);
    PlainAscii("half");
    OneNodeOpens(Front(), r, floatToUint);
    var meta := Encode(BuiltDatabase.MetadataFixture(r, 1)).value;
    file := FileWith(Front(), meta);
    db := Db(Memory(file), MetadataOf(r, 1), None, true);
    assert file[..6] == PackNode(24, 17, 17);
    NodeRead(file);
    FrontLookup(db, ip);
    assert file[22..22 + |BrokenRecord()|] == BrokenRecord();
    MemoryHolds(file, 22, 22, BrokenRecord());
    BrokenRecordRead(Decoder(Memory(file).Reads(), 22), 22);
  }

  lemma FrontLookup(db: Db, ip: bytes)
    requires |ip| == 4 && db.Valid() && db.meta.ipVersion == 4 && db.meta.recordSize == 24 && db.meta.nodeCount == 1
    requires db.Tree().ReadNode(0) == Ok((17, 17))
    ensures db.LookupOffset(Some(ip)) == Ok(Some(22))
  {
    hide Bits, SearchTree.ReadNode, SearchTree.Walk;
    WalkLeaves(db.Tree(), Bits(ip));
  }

  // -------------------------------------------------------------------------
  // The verdict
  // -------------------------------------------------------------------------

  lemma CountryShown(db: Db, ip: bytes, seekOnly: bool, f: Formatter)
    requires db.Valid() && LeadsToRecord(db, ip) && f.text.trimSpace(US) == US
    ensures Shown([Place(db, 22)], seekOnly, f, COUNTRY_DEF) == if seekOnly then US else []
  {
    hide FirstRecord, Ascii, Split, Db.LookupOffset, Db.RecordAt, Db.ValueAt;
    Texts();
    SplitWithout(COUNTRY, DOT);
    OneRecord(Place(db, 22), seekOnly, f, COUNTRY);
    assert f.Format(Str(US), KindString) == US;
  }

  lemma OneDatabase(db: Db, ip: bytes)
    requires db.Valid() && LeadsToRecord(db, ip)
    ensures Places([db], Some(ip)) == [Place(db, 22)] && FirstError([db], Some(ip)).None?
  {
    hide Places, FirstError, Db.LookupOffset, Db.RecordAt, Db.ValueAt;
    var dbs := [db];
    OneMoreDatabase(dbs, 0, Some(ip));
    NoMoreDatabases(dbs, Some(ip));
    assert dbs[0..] == dbs;
    assert [Place(db, 22)] + [] == [Place(db, 22)];
  }

  lemma CountryVerdictBy(known: map<bytes, FieldDef>, text: Rules.Text, f: Formatter, db: Db, ip: bytes, seekOnly: bool)
    requires COUNTRY in known && known[COUNTRY] == COUNTRY_DEF
    requires text.upper(US) == US && text.upper([]) == [] && f.text.trimSpace(US) == US
    requires db.Valid() && LeadsToRecord(db, ip)
    ensures VerdictBy(known, CountryRules({US}), text, [Place(db, 22)], seekOnly, f).Allow? == seekOnly
  {
    hide Shown, Ascii, Evaluate, RequiredFields, CountryRules, LeadsToRecord;
    CountryIsRequired();
    CountryShown(db, ip, seekOnly, f);
    assert COUNTRY in [COUNTRY];
    var shown := RequiredShown(known, CountryRules({US}), [Place(db, 22)], seekOnly, f);
    FieldOfMember(shown, COUNTRY);
    CountryVerdict(text, {US}, shown);
    Texts();
  }

  /** A request from such a record is let in if and only if no more than eight fields are selected. */
  lemma FewFieldsAdmit(known: map<bytes, FieldDef>, headerMap: map<bytes, bytes>, text: Rules.Text, f: Formatter,
                       db: Db,
                       ip: bytes, failOpen: bool)
    requires ByName(known) && COUNTRY in known && known[COUNTRY] == COUNTRY_DEF
    requires SelectFields(known, headerMap, CountryRules({US})).Ok?
    requires text.upper(US) == US && text.upper([]) == [] && f.text.trimSpace(US) == US
    requires db.Valid() && LeadsToRecord(db, ip)
    ensures var rs := CountryRules({US});
            var answer := Resolved([db], f, Some(ip), SelectFields(known, headerMap, rs).value);
            Serve(Gate([], [], false, failOpen), rs, text, Some(ip), false, answer) ==
            Judged(|Wanted(headerMap, rs)| <= 8)
  {
    hide SelectFields, Ascii, Evaluate, CountryRules, VerdictBy, LeadsToRecord, Places, FirstError, Resolved;
    hide HeaderFields, RequiredFields;
    var rs, dbs := CountryRules({US}), [db];
    SelectionIsExact(known, headerMap, rs);
    CountryIsRequired();
    assert COUNTRY in [COUNTRY];
    assert COUNTRY in Wanted(headerMap, rs);
    OneDatabase(db, ip);
    OutcomeIgnoresFields(dbs, f, Some(ip), SelectFields(known, headerMap, rs).value);
    VerdictIsByStrategy(known, rs, text, headerMap, dbs, f, Some(ip));
    CountryVerdictBy(known, text, f, db, ip, Strategy(known, headerMap, rs));
  }

  // -------------------------------------------------------------------------
  // Two header maps
  // -------------------------------------------------------------------------

  // Eight fields that the rules do not read, of different lengths.
  const OTHERS := { ASN, IS_TOR, IS_SPAM, IS_PROXY, CITY, CONTINENT, IS_CLOUD_PROVIDER, IS_CORPORATE_GATEWAY }

  lemma NineFields()
    ensures |OTHERS + {COUNTRY}| == 9 && IP_FIELD !in OTHERS
  {
    assert |ASN| == 3 && |IS_TOR| == 6 && |IS_SPAM| == 7 && |IS_PROXY| == 8 && |CITY| == 9 && |CONTINENT| == 14;
    assert |IS_CLOUD_PROVIDER| == 17 && |IS_CORPORATE_GATEWAY| == 20 && |COUNTRY| == 12 && |IP_FIELD| == 2;
    var three := { ASN, IS_TOR, IS_SPAM };
    var six := three + { IS_PROXY, CITY, CONTINENT };
    assert |three| == 3;
    assert |six| == 6;
    assert OTHERS == six + { IS_CLOUD_PROVIDER, IS_CORPORATE_GATEWAY };
    assert |OTHERS| == 8;
  }

  function AllFields(): map<bytes, FieldDef>
  {
    map name | name in OTHERS + {COUNTRY} :: FieldDef(name, KindString, [name], [])
  }

  /** A header for each of the other fields. */
  function AllHeaders(): map<bytes, bytes>
  {
    map name | name in OTHERS :: name
  }

  lemma HeaderSelections()
    ensures var rs := CountryRules({US});
            && SelectFields(AllFields(), map[], rs).Ok? && SelectFields(AllFields(), AllHeaders(), rs).Ok?
            && |Wanted(map[], rs)| <= 8 < |Wanted(AllHeaders(), rs)|
  {
    hide Ascii, RequiredFields, SelectFields, CountryRules;
    var rs := CountryRules({US});
    NineFields();
    CountryIsRequired();
    assert Members([COUNTRY]) == {COUNTRY};
    assert Wanted(map[], rs) == {COUNTRY};
    var b := AllHeaders();
    forall name | name in OTHERS
      ensures name in HeaderFields(b, b.Keys)
    {
      assert name in b.Keys && b[name] == name;
    }
    assert HeaderFields(b, b.Keys) == OTHERS;
    assert Wanted(b, rs) == OTHERS + {COUNTRY};
    SelectionIsExact(AllFields(), map[], rs);
    SelectionIsExact(AllFields(), b, rs);
  }

  /**
   An opened database in which no lookup fails, a compiled configuration and two header maps, on different sides
   of the threshold: the same request is let in by the one and denied by the other.
   */
  lemma ThresholdFlipsVerdict(text: Rules.Text, f: Formatter, floatToUint: Value -> nat, ip: bytes, gate: Gate)
    returns (file: bytes, db: Db, known: map<bytes, FieldDef>, cfg: Config, b: map<bytes, bytes>)
    requires |ip| == 4 && IsCountryCode(text, US) && text.upper([]) == [] && f.text.trimSpace(US) == US
    requires gate.allowedIPs == [] && gate.blockedIPs == [] && !gate.allowPrivate
    ensures OpenDb(file, true, floatToUint) == Ok(db) && db.Valid() && FirstError([db], Some(ip)).None?
    ensures WellFormed(Compiled(cfg, text)) && ByName(known) && LookedUp(gate, Some(ip), false)
    ensures var rs := Compiled(cfg, text);
            && SelectFields(known, map[], rs).Ok? && SelectFields(known, b, rs).Ok?
            && var x := Resolved([db], f, Some(ip), SelectFields(known, map[], rs).value);
               var y := Resolved([db], f, Some(ip), SelectFields(known, b, rs).value);
               && Serve(gate, rs, text, Some(ip), false, x) == Judged(true)
               && Serve(gate, rs, text, Some(ip), false, y) == Judged(false)
  {
    hide *;
    file, db := BrokenDatabase(ip, floatToUint);
    known, cfg, b := AllFields(), CountriesOnly([US]), AllHeaders();
    KnownByName();
    UsIsCountry(text);
    CountriesCompiled(text, US);
    HeaderSelections();
    OneDatabase(db, ip);
    NoLists(gate, ip);
    FewFieldsAdmit(known, map[], text, f, db, ip, gate.failOpen);
    FewFieldsAdmit(known, b, text, f, db, ip, gate.failOpen);
  }

  lemma KnownByName()
    ensures ByName(AllFields()) && COUNTRY in AllFields() && AllFields()[COUNTRY] == COUNTRY_DEF
  {
    hide Ascii;
  }

  lemma UsIsCountry(text: Rules.Text)
    requires IsCountryCode(text, US)
    ensures text.upper(US) == US
  {
  }

  lemma NoLists(gate: Gate, ip: bytes)
    requires gate.allowedIPs == [] && gate.blockedIPs == [] && !gate.allowPrivate
    ensures LookedUp(gate, Some(ip), false) && gate == Gate([], [], false, gate.failOpen)
  {
  }
}
