/** From the bytes of a record to the verdict: a bool decoded for a flag decides the option that blocks by it. */
module FlaggedRequests {
  import opened Bytes
  import opened DataSection
  import opened Readers
  import opened Fields
  import opened Provider
  import opened Rules
  import opened Selection
  import opened Policies
  import opened Priority
  import PartialFailures
  import Renderings

  /** Flags are rendered as "true" and "false", which the rules' text functions leave alone. */
  predicate PlainTruth(f: Formatter, text: Rules.Text)
  {
    && f.trueValue == Ascii("true") && f.falseValue == Ascii("false")
    && text.lower(text.trimSpace(Ascii("true"))) == Ascii("true")
    && text.lower(text.trimSpace(Ascii("false"))) == Ascii("false")
  }

  /** A field of kind bool read at its own name. */
  function FlagField(name: bytes): FieldDef
  {
    FieldDef(name, KindBool, [name], [])
  }

  /** Database `i` has a readable record with a bool under the name, and no database before it shows the flag. */
  ghost predicate FlagDecoded(dbs: seq<Db>, ip: Option<bytes>, seekOnly: bool, f: Formatter, name: bytes, i: nat,
                              b: bool)
    requires forall j :: 0 <= j < |dbs| ==> dbs[j].Valid()
  {
    && i < |dbs| && HasRecord(dbs[i], ip)
    && var p := Place(dbs[i], dbs[i].LookupOffset(ip).value.value);
       && ReadableAt(p, name) && p.db.RecordAt(p.offset).Ok? && p.db.RecordAt(p.offset).value.Map?
       && name in p.db.RecordAt(p.offset).value.m && p.db.RecordAt(p.offset).value.m[name] == Bool(b)
       && forall j :: 0 <= j < i ==> ShownBy(dbs[j], ip, seekOnly, f, FlagField(name)) == None
  }

  lemma BoolRead(p: Place, m: map<bytes, Value>, seekOnly: bool, name: bytes, b: bool)
    requires ReadableAt(p, name) && p.db.RecordAt(p.offset) == Ok(Map(m)) && name in m && m[name] == Bool(b)
    requires DOT !in name
    ensures RecordValue(p.db, p.offset, seekOnly, name) == Some(Bool(b))
  {
    hide ReadableAt, RecordValue, Db.RecordAt;
    PartialFailures.OnePart(p, m, name);
    ValueSame(p, name);
  }

  lemma FlagShown(dbs: seq<Db>, ip: Option<bytes>, seekOnly: bool, f: Formatter, text: Rules.Text, name: bytes, i: nat,
                  b: bool)
    requires forall j :: 0 <= j < |dbs| ==> dbs[j].Valid()
    requires FlagDecoded(dbs, ip, seekOnly, f, name, i, b) && PlainTruth(f, text) && DOT !in name
    ensures Decides(dbs, ip, seekOnly, f, FlagField(name), i, if b then Ascii("true") else Ascii("false"))
  {
    hide ReadableAt, RecordValue, Db.RecordAt, Db.LookupOffset, Db.Valid, Ascii, Formatter.Extract, Formatter.Format;
    var p := Place(dbs[i], dbs[i].LookupOffset(ip).value.value);
    var value := path => RecordValue(p.db, p.offset, seekOnly, path);
    var v := if b then Ascii("true") else Ascii("false");
    BoolRead(p, p.db.RecordAt(p.offset).value.m, seekOnly, name, b);
    Renderings.TruthShows(f, Bool(b), KindBool);
    assert |Ascii("true")| == 4 && |Ascii("false")| == 5;
    var def := FlagField(name);
    assert ShownAt(f, value, def.paths, def.kind, 0, v);
    ExtractIff(f, value, def, v);
  }

  /** A selected flag is on for the rules exactly when the bool decoded for it is true. */
  lemma DecodedFlagIsOn(known: map<bytes, FieldDef>, headerMap: map<bytes, bytes>, rs: RuleSet, text: Rules.Text,
                        dbs: seq<Db>, f: Formatter, ip: Option<bytes>, name: bytes, i: nat, b: bool)
    requires (forall j :: 0 <= j < |dbs| ==> dbs[j].Valid()) && PlainTruth(f, text) && DOT !in name
    requires ByName(known) && SelectFields(known, headerMap, rs).Ok? && name in RequiredFields(rs)
    requires name in known && known[name] == FlagField(name)
    requires FlagDecoded(dbs, ip, Strategy(known, headerMap, rs), f, name, i, b)
    ensures var answer := Resolved(dbs, f, ip, SelectFields(known, headerMap, rs).value);
            answer.found && (On(text, answer.fields, name) <==> b)
  {
    hide SelectFields, RequiredFields, Lookup, FlagDecoded, Decides, Db.Valid, Ascii, Wanted, SeekOnly, ByName;
    var defs := SelectFields(known, headerMap, rs).value;
    var answer := Resolved(dbs, f, ip, defs);
    IsWanted(headerMap, rs, name);
    SelectionIsExact(known, headerMap, rs);
    NameOf(known, name);
    assert known[name] in defs;
    var k :| 0 <= k < |defs| && defs[k] == known[name];
    FlagShown(dbs, ip, Strategy(known, headerMap, rs), f, text, name, i, b);
    FirstDatabaseWins(dbs, SeekOnly(|defs|), f, ip, defs, k, if b then Ascii("true") else Ascii("false"));
    FoundAndFailedIff(dbs, SeekOnly(|defs|), f, ip, defs, CorruptTree);
    HasOne(dbs, ip, Strategy(known, headerMap, rs), f, name, i, b);
    TruthIsNotFalsehood();
  }

  lemma IsWanted(headerMap: map<bytes, bytes>, rs: RuleSet, name: bytes)
    requires name in RequiredFields(rs)
    ensures name in Wanted(headerMap, rs)
  {
    hide RequiredFields, HeaderFields;
  }

  lemma NameOf(known: map<bytes, FieldDef>, name: bytes)
    requires ByName(known) && name in known
    ensures known[name].name == name
  {
  }

  lemma HasOne(dbs: seq<Db>, ip: Option<bytes>, seekOnly: bool, f: Formatter, name: bytes, i: nat, b: bool)
    requires forall j :: 0 <= j < |dbs| ==> dbs[j].Valid()
    requires FlagDecoded(dbs, ip, seekOnly, f, name, i, b)
    ensures exists j :: 0 <= j < |dbs| && HasRecord(dbs[j], ip)
  {
    hide HasRecord, Db.Valid, ReadableAt, ShownBy, Db.RecordAt;
    assert HasRecord(dbs[i], ip);
  }

  lemma TruthIsNotFalsehood()
    ensures Ascii("false") !in { Ascii("true"), Ascii("1"), Ascii("yes"), Ascii("on") }
  {
    assert |Ascii("false")| == 5 && |Ascii("true")| == 4 && |Ascii("1")| == 1 && |Ascii("yes")| == 3;
    assert |Ascii("on")| == 2;
  }

  /** With Tor blocked, a request whose record decodes `is_tor` as true is denied. */
  lemma TorIsDenied(known: map<bytes, FieldDef>, headerMap: map<bytes, bytes>, cfg: Config, text: Rules.Text,
                    dbs: seq<Db>, f: Formatter, ip: Option<bytes>, i: nat)
    requires (forall j :: 0 <= j < |dbs| ==> dbs[j].Valid()) && PlainTruth(f, text) && cfg.blockTor
    requires ByName(known) && IS_TOR in known && known[IS_TOR] == FlagField(IS_TOR)
    requires SelectFields(known, headerMap, Compiled(cfg, text)).Ok?
    requires FlagDecoded(dbs, ip, Strategy(known, headerMap, Compiled(cfg, text)), f, IS_TOR, i, true)
    ensures var answer := Resolved(dbs, f, ip, SelectFields(known, headerMap, Compiled(cfg, text)).value);
            Evaluate(Compiled(cfg, text), text, answer.fields, answer.found).Deny?
  {
    hide *;
    TorIsRequired(cfg, text);
    DecodedFlagIsOn(known, headerMap, Compiled(cfg, text), text, dbs, f, ip, IS_TOR, i, true);
    var answer := Resolved(dbs, f, ip, SelectFields(known, headerMap, Compiled(cfg, text)).value);
    TorBlocks(cfg, text, answer.fields);
    ConfigurationAllowsIff(cfg, text, answer.fields, answer.found);
  }

  lemma TorIsRequired(cfg: Config, text: Rules.Text)
    requires cfg.blockTor
    ensures IS_TOR in RequiredFields(Compiled(cfg, text)) && DOT !in IS_TOR
  {
    hide FlagFields, NormalSet;
    assert SecurityRules(cfg)[0].field == IS_TOR && SecurityRules(cfg)[0].enabled;
    FlagFieldsHold(SecurityRules(cfg), 0);
  }

  lemma TorBlocks(cfg: Config, text: Rules.Text, fields: map<bytes, bytes>)
    requires cfg.blockTor && On(text, fields, IS_TOR)
    ensures !NoOptionBlocks(cfg, text, fields)
  {
    hide On, Ascii, ActorsPass, SourcesPass;
  }
}
