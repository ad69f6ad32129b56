/**
 The fields resolved for a request, and what is done with it. Which fields are resolved depends on the
 configured headers; the verdict depends on them only through the lookup strategy that their number picks.
 */
module Selection {
  import opened Bytes
  import opened Readers
  import opened Fields
  import opened Provider
  import opened Rules
  import ClientIp

  const IP_FIELD := Ascii("ip")

  // -------------------------------------------------------------------------
  // The catalog and the selection
  // -------------------------------------------------------------------------

  /** The catalog by name; a later definition of a name replaces an earlier one. */
  function Catalog(defs: seq<FieldDef>): map<bytes, FieldDef>
  {
    if defs == [] then map[] else Catalog(defs[..|defs| - 1])[defs[|defs| - 1].name := defs[|defs| - 1]]
  }

  method CatalogLoop(defs: seq<FieldDef>) returns (out: map<bytes, FieldDef>)
    ensures out == Catalog(defs)
  {
    out := map[];
    for i := 0 to |defs|
      invariant out == Catalog(defs[..i])
    {
      assert defs[..i + 1][..i] == defs[..i];
      out := out[defs[i].name := defs[i]];
    }
    assert defs[..|defs|] == defs;
  }

  /** Each definition is filed under its own name, and every definition's name is there. */
  lemma {:induction false} CatalogNames(defs: seq<FieldDef>)
    ensures ByName(Catalog(defs))
    ensures forall name :: name in Catalog(defs) ==> Catalog(defs)[name].name == name && Catalog(defs)[name] in defs
    ensures forall i :: 0 <= i < |defs| ==> defs[i].name in Catalog(defs)
    decreases |defs|
  {
    if defs != [] {
      CatalogNames(defs[..|defs| - 1]);
    }
  }

  /** The last definition of a name counts. */
  lemma {:induction false} LastDefinitionCounts(defs: seq<FieldDef>, i: nat)
    requires i < |defs| && forall j :: i < j < |defs| ==> defs[j].name != defs[i].name
    ensures defs[i].name in Catalog(defs) && Catalog(defs)[defs[i].name] == defs[i]
    decreases |defs|
  {
    if i < |defs| - 1 {
      LastDefinitionCounts(defs[..|defs| - 1], i);
    }
  }

  /** The fields some headers show, other than the address itself. */
  function HeaderFields(headerMap: map<bytes, bytes>, headers: set<bytes>): set<bytes>
  {
    set h | h in headers && h in headerMap && headerMap[h] != IP_FIELD :: headerMap[h]
  }

  function Members(names: seq<bytes>): set<bytes>
  {
    set name | name in names
  }

  /** The names the headers and the rules need. */
  function Wanted(headerMap: map<bytes, bytes>, rs: RuleSet): set<bytes>
  {
    HeaderFields(headerMap, headerMap.Keys) + Members(RequiredFields(rs))
  }

  /** A field is needed when some header shows it, unless it is the address itself, or when the rules read it. */
  lemma WantedIff(headerMap: map<bytes, bytes>, rs: RuleSet, name: bytes)
    ensures name in Wanted(headerMap, rs) <==>
            (name in headerMap.Values && name != Ascii("ip")) || name in RequiredFields(rs)
  {
    hide RequiredFields, Ascii;
    if name in headerMap.Values {
      var h :| h in headerMap && headerMap[h] == name;
      assert name != IP_FIELD ==> name in HeaderFields(headerMap, headerMap.Keys);
    }
  }

  function Definitions(known: map<bytes, FieldDef>, names: seq<bytes>): Result<seq<FieldDef>>
  {
    if names == [] then Ok([])
    else
      var front :- Definitions(known, names[..|names| - 1]);
      if names[|names| - 1] in known then Ok(front + [known[names[|names| - 1]]]) else Err(UnknownField)
  }

  function SelectFields(known: map<bytes, FieldDef>, headerMap: map<bytes, bytes>, rs: RuleSet): Result<seq<FieldDef>>
  {
    Definitions(known, Sorted(Wanted(headerMap, rs)))
  }

  lemma OneMoreHeader(headerMap: map<bytes, bytes>, headers: set<bytes>, h: bytes)
    requires h in headerMap
    ensures HeaderFields(headerMap, headers + {h}) ==
            HeaderFields(headerMap, headers) + if headerMap[h] != IP_FIELD then {headerMap[h]} else {}
  {
    hide Ascii;
    var before, after := HeaderFields(headerMap, headers), HeaderFields(headerMap, headers + {h});
    forall v | v in before
      ensures v in after
    {
      var k :| k in headers && k in headerMap && headerMap[k] != IP_FIELD && headerMap[k] == v;
      assert k in headers + {h};
    }
    assert headerMap[h] != IP_FIELD ==> h in headers + {h} && headerMap[h] in after;
  }

  method HeaderFieldsLoop(headerMap: map<bytes, bytes>) returns (wanted: set<bytes>)
    ensures wanted == HeaderFields(headerMap, headerMap.Keys)
  {
    hide HeaderFields, Ascii;
    wanted := {};
    var todo := headerMap.Keys;
    NoHeaders(headerMap);
    while todo != {}
      invariant todo <= headerMap.Keys
      invariant wanted == HeaderFields(headerMap, headerMap.Keys - todo)
      decreases |todo|
    {
      var h :| h in todo;
      OneMoreHeader(headerMap, headerMap.Keys - todo, h);
      assert headerMap.Keys - (todo - {h}) == headerMap.Keys - todo + {h};
      todo := todo - {h};
      if headerMap[h] != IP_FIELD {
        wanted := wanted + {headerMap[h]};
      }
    }
    assert headerMap.Keys - {} == headerMap.Keys;
  }

  lemma NoHeaders(headerMap: map<bytes, bytes>)
    ensures HeaderFields(headerMap, headerMap.Keys - headerMap.Keys) == {}
  {
  }

  method WantedLoop(headerMap: map<bytes, bytes>, rs: RuleSet) returns (wanted: set<bytes>)
    ensures wanted == Wanted(headerMap, rs)
  {
    hide RequiredFields, HeaderFields;
    wanted := HeaderFieldsLoop(headerMap);
    ghost var fromHeaders := wanted;
    var required := RequiredFieldsLoop(rs);
    for i := 0 to |required|
      invariant wanted == fromHeaders + Members(required[..i])
    {
      assert Members(required[..i + 1]) == Members(required[..i]) + {required[i]};
      wanted := wanted + {required[i]};
    }
    assert required[..|required|] == required;
  }

  method SelectFieldsLoop(known: map<bytes, FieldDef>, headerMap: map<bytes, bytes>, rs: RuleSet)
    returns (r: Result<seq<FieldDef>>)
    ensures r == SelectFields(known, headerMap, rs)
  {
    hide Wanted, Sorted;
    var wanted := WantedLoop(headerMap, rs);
    var names := Sorted(wanted);
    var out: seq<FieldDef> := [];
    for i := 0 to |names|
      invariant Definitions(known, names[..i]) == Ok(out)
    {
      assert names[..i + 1][..i] == names[..i];
      if names[i] !in known {
        UnknownStays(known, names, i + 1);
        return Err(UnknownField);
      }
      out := out + [known[names[i]]];
    }
    assert names[..|names|] == names;
    r := Ok(out);
  }

  lemma {:induction false} UnknownStays(known: map<bytes, FieldDef>, names: seq<bytes>, i: nat)
    requires i <= |names| && Definitions(known, names[..i]) == Err(UnknownField)
    ensures Definitions(known, names) == Err(UnknownField)
    decreases |names| - i
  {
    if i == |names| {
      assert names[..i] == names;
    } else {
      assert names[..i + 1][..i] == names[..i];
      UnknownStays(known, names, i + 1);
    }
  }

  /** Every definition is filed under its own name. */
  ghost predicate ByName(known: map<bytes, FieldDef>)
  {
    forall name :: name in known ==> known[name].name == name
  }

  lemma {:induction false} DefinitionsMatch(known: map<bytes, FieldDef>, names: seq<bytes>)
    ensures Definitions(known, names).Ok? <==> forall name :: name in names ==> name in known
    ensures Definitions(known, names).Ok? ==>
              && |Definitions(known, names).value| == |names|
              && forall i :: 0 <= i < |names| ==>
                   names[i] in known && Definitions(known, names).value[i] == known[names[i]]
    ensures Definitions(known, names).Err? ==> Definitions(known, names).error == UnknownField
    decreases |names|
  {
    if names != [] {
      DefinitionsMatch(known, names[..|names| - 1]);
    }
  }

  /** Each needed field is selected exactly once, or one of them is unknown. */
  lemma SelectionIsExact(known: map<bytes, FieldDef>, headerMap: map<bytes, bytes>, rs: RuleSet)
    requires ByName(known)
    ensures var r := SelectFields(known, headerMap, rs);
            && (r.Ok? <==> Wanted(headerMap, rs) <= known.Keys)
            && (r.Ok? ==> Distinct(r.value) && |r.value| == |Wanted(headerMap, rs)| &&
                          forall def :: def in r.value <==> def.name in Wanted(headerMap, rs) && def == known[def.name])
  {
    hide Wanted, Sorted, Definitions;
    var wanted := Wanted(headerMap, rs);
    var names := Sorted(wanted);
    SortedMembers(wanted);
    DefinitionsMatch(known, names);
    var r := SelectFields(known, headerMap, rs);
    if r.Ok? {
      forall i, j | 0 <= i < j < |names|
        ensures r.value[i].name != r.value[j].name
      {
        SortedOrder(wanted, i, j);
      }
      forall def
        ensures def in r.value <==> def.name in wanted && def == known[def.name]
      {
        if def.name in wanted {
          var i :| 0 <= i < |names| && names[i] == def.name;
          assert r.value[i] == known[def.name];
        }
      }
    }
  }

  // -------------------------------------------------------------------------
  // The selection does not change what a field holds
  // -------------------------------------------------------------------------

  ghost predicate Distinct(defs: seq<FieldDef>)
  {
    forall i, j :: 0 <= i < j < |defs| ==> defs[i].name != defs[j].name
  }

  lemma {:induction false} OthersUntouched(places: seq<Place>, seekOnly: bool, f: Formatter, defs: seq<FieldDef>,
                                           acc: map<bytes, bytes>, name: bytes)
    requires forall i :: 0 <= i < |defs| ==> defs[i].name != name
    ensures FieldOf(ExtractFields(places, seekOnly, f, defs, acc), name) == FieldOf(acc, name)
    decreases |defs|
  {
    hide FirstRecord;
    if defs != [] {
      var r := FirstRecord(places, seekOnly, f, defs[0]);
      assert forall i :: 0 <= i < |defs[1..]| ==> defs[1..][i] == defs[i + 1];
      OthersUntouched(places, seekOnly, f, defs[1..], if r.Some? then acc[defs[0].name := r.value] else acc, name);
    }
  }

  /** A field's value depends on its own definition alone. */
  function Shown(places: seq<Place>, seekOnly: bool, f: Formatter, def: FieldDef): bytes
  {
    var r := FirstRecord(places, seekOnly, f, def);
    if r.Some? then r.value else []
  }

  lemma {:induction false} FieldIsShown(places: seq<Place>, seekOnly: bool, f: Formatter, defs: seq<FieldDef>,
                                        acc: map<bytes, bytes>, k: nat)
    requires Distinct(defs) && k < |defs| && forall i :: 0 <= i < |defs| ==> defs[i].name !in acc
    ensures FieldOf(ExtractFields(places, seekOnly, f, defs, acc), defs[k].name) == Shown(places, seekOnly, f, defs[k])
    decreases |defs|
  {
    hide FirstRecord;
    var r := FirstRecord(places, seekOnly, f, defs[0]);
    var rest := defs[1..];
    var next := if r.Some? then acc[defs[0].name := r.value] else acc;
    assert forall i :: 0 <= i < |rest| ==> rest[i] == defs[i + 1];
    if k == 0 {
      OthersUntouched(places, seekOnly, f, rest, next, defs[0].name);
    } else {
      FieldIsShown(places, seekOnly, f, rest, next, k - 1);
    }
  }

  /** What is resolved for an address when some definitions were selected: their number picks the strategy. */
  function Resolved(dbs: seq<Db>, f: Formatter, ip: Option<bytes>, defs: seq<FieldDef>): Answer
    requires forall i :: 0 <= i < |dbs| ==> dbs[i].Valid()
  {
    Lookup(dbs, SeekOnly(|defs|), f, ip, defs)
  }

  /** A selected field holds what its own definition shows by the strategy in use, whatever else is selected. */
  lemma LookupShows(dbs: seq<Db>, f: Formatter, ip: Option<bytes>, defs: seq<FieldDef>, def: FieldDef)
    requires (forall i :: 0 <= i < |dbs| ==> dbs[i].Valid()) && Distinct(defs) && def in defs
    ensures FieldOf(Resolved(dbs, f, ip, defs).fields, def.name) == Shown(Places(dbs, ip), SeekOnly(|defs|), f, def)
  {
    hide ExtractFields, Places, FirstError, SeekOnly, Shown;
    var k :| 0 <= k < |defs| && defs[k] == def;
    if Places(dbs, ip) != [] {
      FieldIsShown(Places(dbs, ip), SeekOnly(|defs|), f, defs, map[], k);
    } else {
      NothingShown(SeekOnly(|defs|), f, def);
    }
  }

  lemma NothingShown(seekOnly: bool, f: Formatter, def: FieldDef)
    ensures Shown([], seekOnly, f, def) == []
  {
  }

  lemma OutcomeIgnoresFields(dbs: seq<Db>, f: Formatter, ip: Option<bytes>, defs: seq<FieldDef>)
    requires forall i :: 0 <= i < |dbs| ==> dbs[i].Valid()
    ensures var x := Resolved(dbs, f, ip, defs); x.found == (Places(dbs, ip) != []) && x.error == FirstError(dbs, ip)
  {
    hide ExtractFields, Places, FirstError, SeekOnly;
  }

  // -------------------------------------------------------------------------
  // The verdict and the headers
  // -------------------------------------------------------------------------

  /** The strategy a header map leads to. */
  function Strategy(known: map<bytes, FieldDef>, headerMap: map<bytes, bytes>, rs: RuleSet): bool
    requires SelectFields(known, headerMap, rs).Ok?
  {
    SeekOnly(|SelectFields(known, headerMap, rs).value|)
  }

  /** What a strategy shows for the fields the rules read. */
  function RequiredShown(known: map<bytes, FieldDef>, rs: RuleSet, places: seq<Place>, seekOnly: bool, f: Formatter):
    map<bytes, bytes>
  {
    map name | name in RequiredFields(rs) && name in known :: Shown(places, seekOnly, f, known[name])
  }

  /** The verdict by a strategy: it depends on the records and the rules, and on no header. */
  function VerdictBy(known: map<bytes, FieldDef>, rs: RuleSet, text: Rules.Text, places: seq<Place>, seekOnly: bool,
                     f: Formatter): Decision
  {
    Evaluate(rs, text, RequiredShown(known, rs, places, seekOnly, f), places != [])
  }

  /** A selected field holds what the catalog's definition shows by the strategy in use. */
  lemma SelectedFieldShows(known: map<bytes, FieldDef>, headerMap: map<bytes, bytes>, rs: RuleSet, dbs: seq<Db>,
                           f: Formatter, ip: Option<bytes>, name: bytes)
    requires ByName(known) && SelectFields(known, headerMap, rs).Ok? && name in Wanted(headerMap, rs)
    requires forall i :: 0 <= i < |dbs| ==> dbs[i].Valid()
    ensures name in known
    ensures FieldOf(Resolved(dbs, f, ip, SelectFields(known, headerMap, rs).value).fields, name) ==
            Shown(Places(dbs, ip), Strategy(known, headerMap, rs), f, known[name])
  {
    hide SelectFields, Wanted, Lookup, Places, SeekOnly, Shown, Distinct, FieldOf, Db.Valid;
    SelectionIsExact(known, headerMap, rs);
    var defs := SelectFields(known, headerMap, rs).value;
    assert known[name] in defs;
    LookupShows(dbs, f, ip, defs, known[name]);
  }

  /** Headers bear on a verdict only by the strategy that the number of selected fields picks. */
  lemma VerdictIsByStrategy(known: map<bytes, FieldDef>, rs: RuleSet, text: Rules.Text, headerMap: map<bytes, bytes>,
                            dbs: seq<Db>, f: Formatter, ip: Option<bytes>)
    requires ByName(known) && SelectFields(known, headerMap, rs).Ok?
    requires forall i :: 0 <= i < |dbs| ==> dbs[i].Valid()
    ensures var x := Resolved(dbs, f, ip, SelectFields(known, headerMap, rs).value);
            Evaluate(rs, text, x.fields, x.found) ==
            VerdictBy(known, rs, text, Places(dbs, ip), Strategy(known, headerMap, rs), f)
  {
    hide SelectFields, RequiredFields, Evaluate, Places, Resolved, FieldOf, Shown, Db.Valid, HeaderFields;
    var defs := SelectFields(known, headerMap, rs).value;
    var x := Resolved(dbs, f, ip, defs);
    var shown := RequiredShown(known, rs, Places(dbs, ip), Strategy(known, headerMap, rs), f);
    OutcomeIgnoresFields(dbs, f, ip, defs);
    forall name | name in RequiredFields(rs)
      ensures FieldOf(x.fields, name) == FieldOf(shown, name)
    {
      SelectedFieldShows(known, headerMap, rs, dbs, f, ip, name);
      FieldOfMember(shown, name);
    }
    VerdictReadsOnlyRequired(rs, text, x.fields, shown, x.found);
  }

  lemma FieldOfMember(fields: map<bytes, bytes>, name: bytes)
    ensures FieldOf(fields, name) == if name in fields then fields[name] else []
  {
  }

  /** Two header maps pick one strategy, or both strategies lead to one verdict on the records. */
  predicate SameVerdict(known: map<bytes, FieldDef>, rs: RuleSet, text: Rules.Text, a: map<bytes, bytes>,
                        b: map<bytes, bytes>,
                        places: seq<Place>, f: Formatter)
    requires SelectFields(known, a, rs).Ok? && SelectFields(known, b, rs).Ok?
  {
    || Strategy(known, a, rs) == Strategy(known, b, rs)
    || VerdictBy(known, rs, text, places, true, f) == VerdictBy(known, rs, text, places, false, f)
  }

  /**
   The verdict, reason included, is the same under two header maps if and only if they pick one strategy or both
   strategies lead to one verdict on the records found.
   */
  lemma VerdictIgnoresHeadersIff(known: map<bytes, FieldDef>, rs: RuleSet, text: Rules.Text, a: map<bytes, bytes>,
                                 b: map<bytes, bytes>, dbs: seq<Db>, f: Formatter, ip: Option<bytes>)
    requires ByName(known) && SelectFields(known, a, rs).Ok? && SelectFields(known, b, rs).Ok?
    requires forall i :: 0 <= i < |dbs| ==> dbs[i].Valid()
    ensures var x := Resolved(dbs, f, ip, SelectFields(known, a, rs).value);
            var y := Resolved(dbs, f, ip, SelectFields(known, b, rs).value);
            && x.found == y.found && x.error == y.error == FirstError(dbs, ip)
            && (Evaluate(rs, text, x.fields, x.found) == Evaluate(rs, text, y.fields, y.found) <==>
                SameVerdict(known, rs, text, a, b, Places(dbs, ip), f))
  {
    hide SelectFields, VerdictBy, Evaluate, Places, FirstError, Resolved, SeekOnly, Db.Valid;
    OutcomeIgnoresFields(dbs, f, ip, SelectFields(known, a, rs).value);
    OutcomeIgnoresFields(dbs, f, ip, SelectFields(known, b, rs).value);
    VerdictIsByStrategy(known, rs, text, a, dbs, f, ip);
    VerdictIsByStrategy(known, rs, text, b, dbs, f, ip);
  }

  /**
   Two header maps pick one strategy, or the records decode and their repeated keys agree on the paths of the
   fields that the rules read.
   */
  ghost predicate ReadAlike(known: map<bytes, FieldDef>, rs: RuleSet, a: map<bytes, bytes>, b: map<bytes, bytes>,
                            places: seq<Place>)
    requires SelectFields(known, a, rs).Ok? && SelectFields(known, b, rs).Ok?
  {
    || Strategy(known, a, rs) == Strategy(known, b, rs)
    || forall name :: name in RequiredFields(rs) && name in known ==> Readable(places, known[name])
  }

  lemma ReadAlikeSameVerdict(known: map<bytes, FieldDef>, rs: RuleSet, text: Rules.Text, a: map<bytes, bytes>,
                             b: map<bytes, bytes>, places: seq<Place>, f: Formatter)
    requires SelectFields(known, a, rs).Ok? && SelectFields(known, b, rs).Ok? && ReadAlike(known, rs, a, b, places)
    ensures SameVerdict(known, rs, text, a, b, places, f)
  {
    hide SelectFields, RequiredFields, Evaluate, Readable, FirstRecord, SeekOnly;
    if Strategy(known, a, rs) != Strategy(known, b, rs) {
      forall name | name in RequiredFields(rs) && name in known
        ensures Shown(places, true, f, known[name]) == Shown(places, false, f, known[name])
      {
        FirstRecordSame(places, f, known[name]);
      }
      assert RequiredShown(known, rs, places, true, f) == RequiredShown(known, rs, places, false, f);
    }
  }

  /**
   For one strategy, or for records that both strategies read alike where the rules look, headers cannot affect
   a verdict: it is the same, for the same reason, under any two header maps.
   */
  lemma VerdictIgnoresHeaders(known: map<bytes, FieldDef>, rs: RuleSet, text: Rules.Text, a: map<bytes, bytes>,
                              b: map<bytes, bytes>, dbs: seq<Db>, f: Formatter, ip: Option<bytes>)
    requires ByName(known) && SelectFields(known, a, rs).Ok? && SelectFields(known, b, rs).Ok?
    requires (forall i :: 0 <= i < |dbs| ==> dbs[i].Valid()) && ReadAlike(known, rs, a, b, Places(dbs, ip))
    ensures var x := Resolved(dbs, f, ip, SelectFields(known, a, rs).value);
            var y := Resolved(dbs, f, ip, SelectFields(known, b, rs).value);
            && x.found == y.found && x.error == y.error
            && Evaluate(rs, text, x.fields, x.found) == Evaluate(rs, text, y.fields, y.found)
  {
    hide *;
    ReadAlikeSameVerdict(known, rs, text, a, b, Places(dbs, ip), f);
    VerdictIgnoresHeadersIff(known, rs, text, a, b, dbs, f, ip);
  }

  // -------------------------------------------------------------------------
  // What is done with a request
  // -------------------------------------------------------------------------

  datatype Gate = Gate(allowedIPs: seq<ClientIp.IPNet>, blockedIPs: seq<ClientIp.IPNet>, allowPrivate: bool,
                       failOpen: bool)

  // A request passed on without a check, or judged.
  datatype Verdict = Bypass | Judged(allowed: bool)

  /**
   The decision path of a request; `local` says whether the address is private, and `answer` is what was
   resolved for it.
   */
  function Serve(gate: Gate, rs: RuleSet, text: Rules.Text, ip: Option<bytes>, local: bool, answer: Answer): Verdict
  {
    if ip.None? then Judged(gate.failOpen)
    else if ClientIp.InNets(ip, gate.allowedIPs) then Bypass
    else if ClientIp.InNets(ip, gate.blockedIPs) then Judged(false)
    else if local && gate.allowPrivate then Bypass
    else if answer.error.Some? && answer.fields == map[] then Judged(gate.failOpen)
    else Judged(Evaluate(rs, text, answer.fields, answer.found).Allow?)
  }

  /** The request is neither bypassed nor turned away by its address alone. */
  predicate LookedUp(gate: Gate, ip: Option<bytes>, local: bool)
  {
    && ip.Some? && !ClientIp.InNets(ip, gate.allowedIPs) && !ClientIp.InNets(ip, gate.blockedIPs)
    && !(local && gate.allowPrivate)
  }

  /** Some network of the list holds the address. */
  ghost predicate Listed(ip: Option<bytes>, nets: seq<ClientIp.IPNet>)
  {
    exists net :: net in nets && ip.Some? && net.contains(ip.value)
  }

  lemma ListedIffInNets(ip: Option<bytes>, nets: seq<ClientIp.IPNet>)
    ensures ClientIp.InNets(ip, nets) <==> Listed(ip, nets)
  {
    if Listed(ip, nets) {
      var net :| net in nets && net.contains(ip.value);
      var i :| 0 <= i < |nets| && nets[i] == net;
      assert nets[i].contains(ip.value);
    }
  }

  /**
   What each request comes to. An allowed address passes unchecked, and so does a private one that is not blocked
   if such are let through; a blocked one that is not also allowed is denied; without an address, and after a
   failed lookup that gave no fields, failing open decides; all others are let in exactly if the rules allow them.
   */
  lemma ServingIs(gate: Gate, rs: RuleSet, text: Rules.Text, ip: Option<bytes>, local: bool, answer: Answer)
    ensures var served := Serve(gate, rs, text, ip, local, answer);
            var allowed, blocked := Listed(ip, gate.allowedIPs), Listed(ip, gate.blockedIPs);
            && (served.Bypass? <==> ip.Some? && (allowed || (!blocked && local && gate.allowPrivate)))
            && (blocked && !allowed ==> served == Judged(false))
            && (ip.None? ==> served == Judged(gate.failOpen))
            && (ip.Some? && !allowed && !blocked && !(local && gate.allowPrivate) ==>
                  if answer.error.Some? && answer.fields == map[] then served == Judged(gate.failOpen)
                  else served == Judged(Evaluate(rs, text, answer.fields, answer.found) == Allow))
  {
    hide ClientIp.InNets, Listed, Evaluate;
    ListedIffInNets(ip, gate.allowedIPs);
    ListedIffInNets(ip, gate.blockedIPs);
    if ip.None? {
      NoneListed(gate.allowedIPs);
      NoneListed(gate.blockedIPs);
    }
  }

  lemma NoneListed(nets: seq<ClientIp.IPNet>)
    ensures !Listed(None, nets)
  {
  }

  /**
   Where the verdict is the same under two header maps, what is done with a request is the same if and only if
   its address alone decides, or no database fails, or both answers or neither have fields, or failing open
   gives the rules' verdict.
   */
  lemma ServingIgnoresHeadersIff(known: map<bytes, FieldDef>, rs: RuleSet, text: Rules.Text, a: map<bytes, bytes>,
                                 b: map<bytes, bytes>, dbs: seq<Db>, f: Formatter, ip: Option<bytes>, gate: Gate,
                                 local: bool)
    requires ByName(known) && SelectFields(known, a, rs).Ok? && SelectFields(known, b, rs).Ok?
    requires (forall i :: 0 <= i < |dbs| ==> dbs[i].Valid()) && SameVerdict(known, rs, text, a, b, Places(dbs, ip), f)
    ensures var x := Resolved(dbs, f, ip, SelectFields(known, a, rs).value);
            var y := Resolved(dbs, f, ip, SelectFields(known, b, rs).value);
            Serve(gate, rs, text, ip, local, x) == Serve(gate, rs, text, ip, local, y) <==>
            || !LookedUp(gate, ip, local)
            || FirstError(dbs, ip).None?
            || (x.fields == map[]) == (y.fields == map[])
            || gate.failOpen == Evaluate(rs, text, x.fields, x.found).Allow?
  {
    hide SelectFields, Evaluate, Places, FirstError, Resolved, SameVerdict, Db.Valid, ClientIp.InNets;
    VerdictIgnoresHeadersIff(known, rs, text, a, b, dbs, f, ip);
  }

  /**
   When no database fails, it is the same if and only if its address alone decides, or both header maps pick one
   strategy, or both strategies allow the request or neither does.
   */
  lemma StrategyDecidesServingIff(known: map<bytes, FieldDef>, rs: RuleSet, text: Rules.Text, a: map<bytes, bytes>,
                                  b: map<bytes, bytes>, dbs: seq<Db>, f: Formatter, ip: Option<bytes>, gate: Gate,
                                  local: bool)
    requires ByName(known) && SelectFields(known, a, rs).Ok? && SelectFields(known, b, rs).Ok?
    requires (forall i :: 0 <= i < |dbs| ==> dbs[i].Valid()) && FirstError(dbs, ip).None?
    ensures Serve(gate, rs, text, ip, local, Resolved(dbs, f, ip, SelectFields(known, a, rs).value)) ==
            Serve(gate, rs, text, ip, local, Resolved(dbs, f, ip, SelectFields(known, b, rs).value)) <==>
            || !LookedUp(gate, ip, local)
            || Strategy(known, a, rs) == Strategy(known, b, rs)
            || VerdictBy(known, rs, text, Places(dbs, ip), true, f).Allow? ==
               VerdictBy(known, rs, text, Places(dbs, ip), false, f).Allow?
  {
    hide SelectFields, Evaluate, Places, FirstError, Resolved, VerdictBy, Strategy, Db.Valid, ClientIp.InNets;
    OutcomeIgnoresFields(dbs, f, ip, SelectFields(known, a, rs).value);
    OutcomeIgnoresFields(dbs, f, ip, SelectFields(known, b, rs).value);
    VerdictIsByStrategy(known, rs, text, a, dbs, f, ip);
    VerdictIsByStrategy(known, rs, text, b, dbs, f, ip);
  }

  /** So it is the same whenever the records are read alike where the rules look. */
  lemma ServingIgnoresHeaders(known: map<bytes, FieldDef>, rs: RuleSet, text: Rules.Text, a: map<bytes, bytes>,
                              b: map<bytes, bytes>, dbs: seq<Db>, f: Formatter, ip: Option<bytes>, gate: Gate,
                              local: bool)
    requires ByName(known) && SelectFields(known, a, rs).Ok? && SelectFields(known, b, rs).Ok?
    requires (forall i :: 0 <= i < |dbs| ==> dbs[i].Valid()) && ReadAlike(known, rs, a, b, Places(dbs, ip))
    requires FirstError(dbs, ip).None?
    ensures Serve(gate, rs, text, ip, local, Resolved(dbs, f, ip, SelectFields(known, a, rs).value)) ==
            Serve(gate, rs, text, ip, local, Resolved(dbs, f, ip, SelectFields(known, b, rs).value))
  {
    hide *;
    ReadAlikeSameVerdict(known, rs, text, a, b, Places(dbs, ip), f);
    ServingIgnoresHeadersIff(known, rs, text, a, b, dbs, f, ip, gate, local);
  }

  lemma {:induction false} NothingExtracted(places: seq<Place>, seekOnly: bool, f: Formatter, defs: seq<FieldDef>,
                                            acc: map<bytes, bytes>)
    ensures ExtractFields(places, seekOnly, f, defs, acc) == map[] <==>
            acc == map[] && forall i :: 0 <= i < |defs| ==> FirstRecord(places, seekOnly, f, defs[i]).None?
    decreases |defs|
  {
    hide FirstRecord;
    if defs != [] {
      var r := FirstRecord(places, seekOnly, f, defs[0]);
      var next := if r.Some? then acc[defs[0].name := r.value] else acc;
      var rest := defs[1..];
      NothingExtracted(places, seekOnly, f, rest, next);
      assert forall i :: 0 <= i < |rest| ==> rest[i] == defs[i + 1];
      assert r.Some? ==> defs[0].name in next;
      assert forall i :: 0 < i < |defs| ==> defs[i] == rest[i - 1];
    }
  }

  /** An answer has no fields exactly when no record shows any of the selected ones by the strategy in use. */
  lemma NoFieldsIff(dbs: seq<Db>, f: Formatter, ip: Option<bytes>, defs: seq<FieldDef>)
    requires forall i :: 0 <= i < |dbs| ==> dbs[i].Valid()
    ensures Resolved(dbs, f, ip, defs).fields == map[] <==>
            forall i :: 0 <= i < |defs| ==> FirstRecord(Places(dbs, ip), SeekOnly(|defs|), f, defs[i]).None?
  {
    hide ExtractFields, Places, FirstError, SeekOnly, FirstRecord, Db.Valid;
    NothingExtracted(Places(dbs, ip), SeekOnly(|defs|), f, defs, map[]);
    if Places(dbs, ip) == [] {
      NoRecordNoField(SeekOnly(|defs|), f, defs);
    }
  }

  lemma NoRecordNoField(seekOnly: bool, f: Formatter, defs: seq<FieldDef>)
    ensures forall i :: 0 <= i < |defs| ==> FirstRecord([], seekOnly, f, defs[i]).None?
  {
  }
}
