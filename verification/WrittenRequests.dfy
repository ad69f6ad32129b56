/** Over written databases no header bears on what is done with a request. */
module WrittenRequests {
  import opened Bytes
  import opened DataSection
  import opened Readers
  import opened Fields
  import opened Provider
  import opened BuiltDatabase
  import opened EndToEnd
  import opened BuiltRecords
  import opened Rules
  import opened Selection

  /**
   For databases opened from written files, in memory or from disk and in any order, every verdict and what is
   done with every request is the same under any two header maps.
   */
  lemma WrittenServingIgnoresHeaders(rs: seq<Recipe>, modes: seq<bool>, dbs: seq<Db>, floatToUint: Value -> nat,
                                     known: map<bytes, FieldDef>, rules: RuleSet, text: Rules.Text,
                                     a: map<bytes, bytes>, b: map<bytes, bytes>, f: Formatter, ip: bytes, gate: Gate,
                                     local: bool)
    requires AllWritten(rs, modes, dbs, floatToUint) && (|ip| == 4 || |ip| == 16)
    requires ByName(known) && SelectFields(known, a, rules).Ok? && SelectFields(known, b, rules).Ok?
    ensures forall i :: 0 <= i < |dbs| ==> dbs[i].Valid()
    ensures var x := Resolved(dbs, f, Some(ip), SelectFields(known, a, rules).value);
            var y := Resolved(dbs, f, Some(ip), SelectFields(known, b, rules).value);
            && Evaluate(rules, text, x.fields, x.found) == Evaluate(rules, text, y.fields, y.found)
            && Serve(gate, rules, text, Some(ip), local, x) == Serve(gate, rules, text, Some(ip), local, y)
  {
    hide *;
    AllValid(rs, modes, dbs, floatToUint);
    WrittenPlaces(rs, modes, dbs, floatToUint, ip);
    forall def
      ensures Readable(Places(dbs, Some(ip)), def)
    {
      WrittenReadable(rs, modes, dbs, floatToUint, ip, def);
    }
    AllReadAlike(known, rules, a, b, Places(dbs, Some(ip)));
    VerdictIgnoresHeaders(known, rules, text, a, b, dbs, f, Some(ip));
    ServingIgnoresHeaders(known, rules, text, a, b, dbs, f, Some(ip), gate, local);
  }

  lemma AllReadAlike(known: map<bytes, FieldDef>, rules: RuleSet, a: map<bytes, bytes>, b: map<bytes, bytes>,
                     places: seq<Place>)
    requires SelectFields(known, a, rules).Ok? && SelectFields(known, b, rules).Ok?
    requires forall def :: Readable(places, def)
    ensures ReadAlike(known, rules, a, b, places)
  {
    hide SelectFields, RequiredFields, Readable;
  }

  lemma AllValid(rs: seq<Recipe>, modes: seq<bool>, dbs: seq<Db>, floatToUint: Value -> nat)
    requires AllWritten(rs, modes, dbs, floatToUint)
    ensures forall i :: 0 <= i < |dbs| ==> dbs[i].Valid()
  {
    hide Sound, FileOf, OpenDb, Db.Valid;
  }
}
