/** Access rules: compiling the configuration, the fields the rules read, and the verdict on a request. */
module Rules {
  import opened Bytes
  import opened Readers
  import Fields

  // A parsed floating point number, as far as comparisons can tell.
  datatype Number = Finite(r: real) | PosInf | NegInf | NaN

  // Functions of Go's standard library that the rules call.
  datatype Text = Text(trimSpace: bytes -> bytes, upper: bytes -> bytes, lower: bytes -> bytes,
                       parseFloat: bytes -> Option<Number>) {

    function Truthy(s: bytes): bool
    {
      lower(trimSpace(s)) in {Ascii("true"), Ascii("1"), Ascii("yes"), Ascii("on")}
    }

    function Numeric(s: bytes): Option<Number>
    {
      var trimmed := trimSpace(TrimPrefix(trimSpace(s), Fields.AS));
      if trimmed == [] then None else parseFloat(trimmed)
    }

    /** The "AS1257" form of "AS1257", "as1257" and "1257"; nothing for an empty or zero number. */
    function NormalizeASN(s: bytes): bytes
    {
      var value := TrimPrefix(upper(trimSpace(s)), Fields.AS);
      if value == [] || value == Ascii("0") then [] else Fields.AS + value
    }
  }

  const COUNTRY := Ascii("country_code")
  const CONTINENT := Ascii("continent_code")
  const ASN := Ascii("asn")
  const THREAT := Ascii("threat_score")
  const IS_TOR := Ascii("is_tor")
  const IS_VPN := Ascii("is_vpn")
  const IS_PROXY := Ascii("is_proxy")
  const IS_RELAY := Ascii("is_relay")
  const IS_RESIDENTIAL_PROXY := Ascii("is_residential_proxy")
  const IS_ANONYMOUS := Ascii("is_anonymous")
  const IS_KNOWN_ATTACKER := Ascii("is_known_attacker")
  const IS_BOT := Ascii("is_bot")
  const IS_SPAM := Ascii("is_spam")
  const IS_CLOUD_PROVIDER := Ascii("is_cloud_provider")
  const IS_CORPORATE_GATEWAY := Ascii("is_corporate_gateway")
  const FLAG_FIELDS := [ IS_TOR, IS_VPN, IS_PROXY, IS_RELAY, IS_RESIDENTIAL_PROXY, IS_ANONYMOUS,
                         IS_KNOWN_ATTACKER, IS_BOT, IS_SPAM, IS_CLOUD_PROVIDER, IS_CORPORATE_GATEWAY ]
  const GOOD_BOT := Ascii("is_known_good_bot")

  function TrimPrefix(s: bytes, prefix: bytes): bytes
  {
    if prefix <= s then s[|prefix|..] else s
  }

  // A flag that blocks, unless another one spares the request; an empty `unless` spares nobody.
  datatype SecurityRule = SecurityRule(enabled: bool, field: bytes, unless: bytes)

  // The compiled lists of one kind.
  datatype Lists = Lists(allowed: set<bytes>, blocked: set<bytes>) {
    predicate Used()
    {
      |allowed| + |blocked| > 0
    }
  }

  datatype RuleSet = RuleSet(
    countries: Lists,
    continents: Lists,
    asns: Lists,
    securityRules: seq<SecurityRule>,
    threatScoreAbove: int,
    allowUnknown: bool)

  // Why a request was denied.
  datatype Reason =
    | NoData
    | Unknown(field: bytes)
    | NotAllowed(field: bytes, value: bytes)
    | Blocked(field: bytes, value: bytes)
    | Flagged(rule: SecurityRule)
    | ThreatScore(score: bytes)

  datatype Decision = Allow | Deny(reason: Reason)

  // -------------------------------------------------------------------------
  // Compiling
  // -------------------------------------------------------------------------

  // The configured lists and flags; each flag is a field and whether it is on.
  datatype Config = Config(
    allowedCountries: seq<bytes>, blockedCountries: seq<bytes>,
    allowedContinents: seq<bytes>, blockedContinents: seq<bytes>,
    allowedASNs: seq<bytes>, blockedASNs: seq<bytes>,
    blockTor: bool, blockVPN: bool, blockProxy: bool, blockRelay: bool, blockResidentialProxy: bool,
    blockAnonymous: bool, blockKnownAttacker: bool, blockBot: bool, blockKnownGoodBots: bool, blockSpam: bool,
    blockCloudProvider: bool, blockCorporateGateway: bool,
    blockThreatScoreAbove: int,
    allowUnknown: bool)

  /** The non-empty normalised parts of comma separated values. */
  ghost function NormalSet(values: seq<bytes>, normal: bytes -> bytes): set<bytes>
  {
    if values == [] then {}
    else NormalSet(values[..|values| - 1], normal) + PartSet(Split(values[|values| - 1], COMMA), normal)
  }

  function PartSet(parts: seq<bytes>, normal: bytes -> bytes): set<bytes>
  {
    (set i | 0 <= i < |parts| :: normal(parts[i])) - {[]}
  }

  method NormalSetLoop(values: seq<bytes>, normal: bytes -> bytes) returns (out: set<bytes>)
    ensures out == NormalSet(values, normal)
  {
    hide Split;
    out := {};
    for i := 0 to |values|
      invariant out == NormalSet(values[..i], normal)
    {
      var parts := Split(values[i], COMMA);
      ghost var before := out;
      for j := 0 to |parts|
        invariant out == before + PartSet(parts[..j], normal)
      {
        var part := normal(parts[j]);
        PartSetGrows(parts, j, normal);
        if part != [] {
          out := out + {part};
        }
      }
      assert parts[..|parts|] == parts;
      assert values[..i + 1][..i] == values[..i];
    }
    assert values[..|values|] == values;
  }

  lemma PartSetGrows(parts: seq<bytes>, j: nat, normal: bytes -> bytes)
    requires j < |parts|
    ensures PartSet(parts[..j + 1], normal) == PartSet(parts[..j], normal) + ({normal(parts[j])} - {[]})
  {
    var before, after := parts[..j], parts[..j + 1];
    forall v | v in PartSet(after, normal)
      ensures v in PartSet(before, normal) + ({normal(parts[j])} - {[]})
    {
      var i :| 0 <= i < |after| && normal(after[i]) == v;
      assert i < j ==> before[i] == after[i];
    }
    forall v | v in PartSet(before, normal)
      ensures v in PartSet(after, normal)
    {
      var i :| 0 <= i < |before| && normal(before[i]) == v;
      assert after[i] == before[i];
    }
    assert after[j] == parts[j];
  }

  /** Whether each flag is on, in the order they are tested. */
  function Flags(cfg: Config): (flags: seq<bool>)
    ensures |flags| == |FLAG_FIELDS|
  {
    [ cfg.blockTor, cfg.blockVPN, cfg.blockProxy, cfg.blockRelay, cfg.blockResidentialProxy, cfg.blockAnonymous,
      cfg.blockKnownAttacker, cfg.blockBot, cfg.blockSpam, cfg.blockCloudProvider, cfg.blockCorporateGateway ]
  }

  /** Only bots have an exception, unless known good bots are blocked too. */
  function SecurityRules(cfg: Config): seq<SecurityRule>
  {
    seq(|FLAG_FIELDS|, i requires 0 <= i < |FLAG_FIELDS| =>
      SecurityRule(Flags(cfg)[i], FLAG_FIELDS[i],
                   if FLAG_FIELDS[i] == IS_BOT && !cfg.blockKnownGoodBots then GOOD_BOT else []))
  }

  function UpperTrim(text: Text): bytes -> bytes
  {
    s => text.upper(text.trimSpace(s))
  }

  function NormalAsn(text: Text): bytes -> bytes
  {
    s => text.NormalizeASN(s)
  }

  ghost function Compiled(cfg: Config, text: Text): RuleSet
  {
    RuleSet(Lists(NormalSet(cfg.allowedCountries, UpperTrim(text)), NormalSet(cfg.blockedCountries, UpperTrim(text))),
            Lists(NormalSet(cfg.allowedContinents, UpperTrim(text)), NormalSet(cfg.blockedContinents, UpperTrim(text))),
            Lists(NormalSet(cfg.allowedASNs, NormalAsn(text)), NormalSet(cfg.blockedASNs, NormalAsn(text))),
            SecurityRules(cfg), cfg.blockThreatScoreAbove, cfg.allowUnknown)
  }

  /** No kind has both lists, and the country codes are two bytes long. */
  predicate WellFormed(rs: RuleSet)
  {
    && (rs.countries.allowed == {} || rs.countries.blocked == {})
    && (rs.continents.allowed == {} || rs.continents.blocked == {})
    && (rs.asns.allowed == {} || rs.asns.blocked == {})
    && (forall code :: code in rs.countries.allowed + rs.countries.blocked ==> |code| == 2)
  }

  method NewRuleSet(cfg: Config, text: Text) returns (r: Result<RuleSet>)
    ensures r == if WellFormed(Compiled(cfg, text)) then Ok(Compiled(cfg, text)) else Err(BadRules)
  {
    hide NormalSet, SecurityRules, Ascii, WellFormed, UpperTrim, NormalAsn;
    var allowedCountries := NormalSetLoop(cfg.allowedCountries, UpperTrim(text));
    var blockedCountries := NormalSetLoop(cfg.blockedCountries, UpperTrim(text));
    var allowedContinents := NormalSetLoop(cfg.allowedContinents, UpperTrim(text));
    var blockedContinents := NormalSetLoop(cfg.blockedContinents, UpperTrim(text));
    var allowedASNs := NormalSetLoop(cfg.allowedASNs, NormalAsn(text));
    var blockedASNs := NormalSetLoop(cfg.blockedASNs, NormalAsn(text));
    var rs := RuleSet(Lists(allowedCountries, blockedCountries), Lists(allowedContinents, blockedContinents),
                      Lists(allowedASNs, blockedASNs), SecurityRules(cfg), cfg.blockThreatScoreAbove, cfg.allowUnknown);
    assert rs == Compiled(cfg, text);
    var ok := Checked(rs);
    r := if ok then Ok(rs) else Err(BadRules);
  }

  method Checked(rs: RuleSet) returns (ok: bool)
    ensures ok == WellFormed(rs)
  {
    if |rs.countries.allowed| > 0 && |rs.countries.blocked| > 0 {
      return false;
    }
    if |rs.continents.allowed| > 0 && |rs.continents.blocked| > 0 {
      return false;
    }
    if |rs.asns.allowed| > 0 && |rs.asns.blocked| > 0 {
      return false;
    }
    if exists code :: code in rs.countries.allowed && |code| != 2 {
      return false;
    }
    if exists code :: code in rs.countries.blocked && |code| != 2 {
      return false;
    }
    ok := true;
  }

  // -------------------------------------------------------------------------
  // The verdict
  // -------------------------------------------------------------------------

  /** The value of a field, empty when it is missing. */
  function FieldOf(fields: map<bytes, bytes>, name: bytes): bytes
  {
    if name in fields then fields[name] else []
  }

  function EvaluateLists(lists: Lists, field: bytes, value: bytes, allowUnknown: bool): Decision
  {
    if lists.allowed != {} && value == [] && !allowUnknown then Deny(Unknown(field))
    else if lists.allowed != {} && value != [] && value !in lists.allowed then Deny(NotAllowed(field, value))
    else if lists.blocked != {} && value != [] && value in lists.blocked then Deny(Blocked(field, value))
    else Allow
  }

  /** The flag is on and nothing spares the request. */
  predicate Trips(text: Text, rule: SecurityRule, fields: map<bytes, bytes>)
  {
    && rule.enabled && text.Truthy(FieldOf(fields, rule.field))
    && !(rule.unless != [] && text.Truthy(FieldOf(fields, rule.unless)))
  }

  function EvaluateFlags(text: Text, rules: seq<SecurityRule>, fields: map<bytes, bytes>): Decision
  {
    if rules == [] then Allow
    else if Trips(text, rules[0], fields) then Deny(Flagged(rules[0]))
    else EvaluateFlags(text, rules[1..], fields)
  }

  predicate Above(score: Option<Number>, threshold: int)
  {
    score.Some? && (score.value.PosInf? || (score.value.Finite? && score.value.r > threshold as real))
  }

  function EvaluateThreat(text: Text, threshold: int, score: bytes): Decision
  {
    if threshold >= 0 && Above(text.Numeric(score), threshold) then Deny(ThreatScore(score)) else Allow
  }

  function Then(first: Decision, second: Decision): Decision
  {
    if first.Deny? then first else second
  }

  function Evaluate(rs: RuleSet, text: Text, fields: map<bytes, bytes>, found: bool): Decision
  {
    if !found then (if rs.allowUnknown then Allow else Deny(NoData))
    else
      Then(EvaluateLists(rs.countries, COUNTRY, text.upper(FieldOf(fields, COUNTRY)), rs.allowUnknown),
      Then(EvaluateLists(rs.continents, CONTINENT, text.upper(FieldOf(fields, CONTINENT)), rs.allowUnknown),
      Then(EvaluateLists(rs.asns, ASN, text.NormalizeASN(FieldOf(fields, ASN)), rs.allowUnknown),
      Then(EvaluateFlags(text, rs.securityRules, fields),
           EvaluateThreat(text, rs.threatScoreAbove, FieldOf(fields, THREAT))))))
  }

  // -------------------------------------------------------------------------
  // What the rules read
  // -------------------------------------------------------------------------

  function FlagFields(rules: seq<SecurityRule>): seq<bytes>
  {
    if rules == [] then []
    else
      var last := rules[|rules| - 1];
      FlagFields(rules[..|rules| - 1]) +
      if last.enabled then [last.field] + (if last.unless != [] then [last.unless] else []) else []
  }

  function RequiredFields(rs: RuleSet): seq<bytes>
  {
    (if rs.countries.Used() then [COUNTRY] else []) +
    (if rs.continents.Used() then [CONTINENT] else []) +
    (if rs.asns.Used() then [ASN] else []) +
    (if rs.threatScoreAbove >= 0 then [THREAT] else []) +
    FlagFields(rs.securityRules)
  }

  method FlagFieldsLoop(before: seq<bytes>, rules: seq<SecurityRule>) returns (out: seq<bytes>)
    ensures out == before + FlagFields(rules)
  {
    out := before;
    for i := 0 to |rules|
      invariant out == before + FlagFields(rules[..i])
    {
      var rule := rules[i];
      assert rules[..i + 1][..i] == rules[..i];
      if rule.enabled {
        out := out + [rule.field];
        if rule.unless != [] {
          out := out + [rule.unless];
        }
      }
    }
    assert rules[..|rules|] == rules;
  }

  method RequiredFieldsLoop(rs: RuleSet) returns (out: seq<bytes>)
    ensures out == RequiredFields(rs)
  {
    hide Ascii, FlagFields;
    out := [];
    if rs.countries.Used() {
      out := out + [COUNTRY];
    }
    if rs.continents.Used() {
      out := out + [CONTINENT];
    }
    if rs.asns.Used() {
      out := out + [ASN];
    }
    if rs.threatScoreAbove >= 0 {
      out := out + [THREAT];
    }
    out := FlagFieldsLoop(out, rs.securityRules);
  }

  /** The two sets of fields have the same values where the rules look. */
  ghost predicate AgreeOn(names: seq<bytes>, a: map<bytes, bytes>, b: map<bytes, bytes>)
  {
    forall name :: name in names ==> FieldOf(a, name) == FieldOf(b, name)
  }

  lemma {:induction false} FlagFieldsHold(rules: seq<SecurityRule>, i: nat)
    requires i < |rules| && rules[i].enabled
    ensures rules[i].field in FlagFields(rules) && (rules[i].unless != [] ==> rules[i].unless in FlagFields(rules))
    decreases |rules|
  {
    if i < |rules| - 1 {
      FlagFieldsHold(rules[..|rules| - 1], i);
    }
  }

  lemma {:induction false} FlagsAgree(text: Text, rules: seq<SecurityRule>, a: map<bytes, bytes>, b: map<bytes, bytes>)
    requires forall i :: 0 <= i < |rules| ==> Trips(text, rules[i], a) == Trips(text, rules[i], b)
    ensures EvaluateFlags(text, rules, a) == EvaluateFlags(text, rules, b)
  {
    hide Trips;
    if rules != [] {
      assert forall i :: 0 <= i < |rules[1..]| ==> rules[1..][i] == rules[i + 1];
      FlagsAgree(text, rules[1..], a, b);
    }
  }

  lemma TripsAgree(text: Text, rules: seq<SecurityRule>, i: nat, a: map<bytes, bytes>, b: map<bytes, bytes>)
    requires i < |rules| && AgreeOn(FlagFields(rules), a, b)
    ensures Trips(text, rules[i], a) == Trips(text, rules[i], b)
  {
    hide Text.Truthy, FieldOf, FlagFields;
    if rules[i].enabled {
      FlagFieldsHold(rules, i);
    }
  }

  /** The verdict, reason included, depends on nothing but the required fields. */
  lemma VerdictReadsOnlyRequired(rs: RuleSet, text: Text, a: map<bytes, bytes>, b: map<bytes, bytes>, found: bool)
    requires AgreeOn(RequiredFields(rs), a, b)
    ensures Evaluate(rs, text, a, found) == Evaluate(rs, text, b, found)
  {
    hide Text.Truthy, FlagFields, Trips, Text.Numeric, Text.NormalizeASN, FieldOf, EvaluateFlags;
    forall i | 0 <= i < |rs.securityRules|
      ensures Trips(text, rs.securityRules[i], a) == Trips(text, rs.securityRules[i], b)
    {
      TripsAgree(text, rs.securityRules, i, a, b);
    }
    FlagsAgree(text, rs.securityRules, a, b);
    UnusedLists(rs.countries, COUNTRY, rs.allowUnknown);
    UnusedLists(rs.continents, CONTINENT, rs.allowUnknown);
    UnusedLists(rs.asns, ASN, rs.allowUnknown);
  }

  lemma UnusedLists(lists: Lists, field: bytes, allowUnknown: bool)
    ensures !lists.Used() ==> forall value :: EvaluateLists(lists, field, value, allowUnknown) == Allow
  {
  }

  // -------------------------------------------------------------------------
  // What the verdict means
  // -------------------------------------------------------------------------

  /** A known value is allowed and not blocked; an unknown one passes a list of allowed values only if unknowns may. */
  predicate ListsPass(lists: Lists, value: bytes, allowUnknown: bool)
  {
    && (lists.allowed != {} ==> if value == [] then allowUnknown else value in lists.allowed)
    && (value != [] ==> value !in lists.blocked)
  }

  predicate Passes(rs: RuleSet, text: Text, fields: map<bytes, bytes>)
  {
    && ListsPass(rs.countries, text.upper(FieldOf(fields, COUNTRY)), rs.allowUnknown)
    && ListsPass(rs.continents, text.upper(FieldOf(fields, CONTINENT)), rs.allowUnknown)
    && ListsPass(rs.asns, text.NormalizeASN(FieldOf(fields, ASN)), rs.allowUnknown)
    && (forall rule :: rule in rs.securityRules ==> !Trips(text, rule, fields))
    && !(rs.threatScoreAbove >= 0 && Above(text.Numeric(FieldOf(fields, THREAT)), rs.threatScoreAbove))
  }

  lemma {:induction false} FlagsPass(text: Text, rules: seq<SecurityRule>, fields: map<bytes, bytes>)
    ensures EvaluateFlags(text, rules, fields).Allow? <==> forall rule :: rule in rules ==> !Trips(text, rule, fields)
  {
    hide Trips;
    if rules != [] {
      FlagsPass(text, rules[1..], fields);
      assert forall rule :: rule in rules <==> rule == rules[0] || rule in rules[1..];
    }
  }

  /** A request is allowed exactly when every check passes; an address without data only if unknowns are allowed. */
  lemma AllowedIff(rs: RuleSet, text: Text, fields: map<bytes, bytes>, found: bool)
    ensures Evaluate(rs, text, fields, found).Allow? <==> if found then Passes(rs, text, fields) else rs.allowUnknown
  {
    hide Text.Truthy, Trips, Text.Numeric, Text.NormalizeASN, FieldOf, EvaluateFlags;
    FlagsPass(text, rs.securityRules, fields);
  }

  /** What a reason says about the request. */
  ghost predicate Justified(rs: RuleSet, text: Text, fields: map<bytes, bytes>, found: bool, reason: Reason)
  {
    match reason
    case NoData => !found && !rs.allowUnknown
    case Unknown(field) =>
      found && !rs.allowUnknown && ListsOf(rs, field).allowed != {} && ComparedValue(text, field, fields) == []
    case NotAllowed(field, value) =>
      found && value != [] && value == ComparedValue(text, field, fields) && ListsOf(rs, field).allowed != {} &&
      value !in ListsOf(rs, field).allowed
    case Blocked(field, value) =>
      found && value != [] && value == ComparedValue(text, field, fields) && value in ListsOf(rs, field).blocked
    case Flagged(rule) => found && rule in rs.securityRules && Trips(text, rule, fields)
    case ThreatScore(score) =>
      found && score == FieldOf(fields, THREAT) && 0 <= rs.threatScoreAbove &&
      Above(text.Numeric(score), rs.threatScoreAbove)
  }

  function ListsOf(rs: RuleSet, field: bytes): Lists
  {
    if field == COUNTRY then rs.countries else if field == CONTINENT then rs.continents else rs.asns
  }

  /** The form in which a field is looked up in the lists. */
  function ComparedValue(text: Text, field: bytes, fields: map<bytes, bytes>): bytes
  {
    if field == ASN then text.NormalizeASN(FieldOf(fields, ASN)) else text.upper(FieldOf(fields, field))
  }

  lemma {:induction false} FlaggedTrips(text: Text, rules: seq<SecurityRule>, fields: map<bytes, bytes>)
    requires EvaluateFlags(text, rules, fields).Deny?
    ensures exists i ::
              && 0 <= i < |rules| && EvaluateFlags(text, rules, fields) == Deny(Flagged(rules[i]))
              && Trips(text, rules[i], fields) && forall j :: 0 <= j < i ==> !Trips(text, rules[j], fields)
  {
    hide Trips;
    if !Trips(text, rules[0], fields) {
      FlaggedTrips(text, rules[1..], fields);
      var i :| 0 <= i < |rules[1..]| && EvaluateFlags(text, rules[1..], fields) == Deny(Flagged(rules[1..][i])) &&
               Trips(text, rules[1..][i], fields) && forall j :: 0 <= j < i ==> !Trips(text, rules[1..][j], fields);
      assert rules[i + 1] == rules[1..][i];
      assert forall j :: 0 < j < i + 1 ==> rules[j] == rules[1..][j - 1];
    }
  }

  lemma FieldsDiffer()
    ensures COUNTRY != ASN && CONTINENT != ASN && COUNTRY != CONTINENT
  {
    assert |COUNTRY| == 12 && |CONTINENT| == 14 && |ASN| == 3;
  }

  /** A denied request is denied for a reason that holds of it. */
  lemma DenialIsJustified(rs: RuleSet, text: Text, fields: map<bytes, bytes>, found: bool)
    requires Evaluate(rs, text, fields, found).Deny?
    ensures Justified(rs, text, fields, found, Evaluate(rs, text, fields, found).reason)
  {
    hide Ascii, Text.Truthy, Trips, Text.Numeric, Text.NormalizeASN, FieldOf, EvaluateFlags;
    FieldsDiffer();
    if EvaluateFlags(text, rs.securityRules, fields).Deny? {
      FlaggedTrips(text, rs.securityRules, fields);
    }
  }

  predicate IsAbout(reason: Reason, field: bytes)
  {
    (reason.Unknown? || reason.NotAllowed? || reason.Blocked?) && reason.field == field
  }

  /** The reason given is that of the first check that fails: country, continent, AS number, flags, threat score. */
  lemma FirstFailureIsGiven(rs: RuleSet, text: Text, fields: map<bytes, bytes>)
    requires Evaluate(rs, text, fields, true).Deny?
    ensures var reason := Evaluate(rs, text, fields, true).reason;
            var country := ListsPass(rs.countries, text.upper(FieldOf(fields, COUNTRY)), rs.allowUnknown);
            var continent := ListsPass(rs.continents, text.upper(FieldOf(fields, CONTINENT)), rs.allowUnknown);
            var asn := ListsPass(rs.asns, text.NormalizeASN(FieldOf(fields, ASN)), rs.allowUnknown);
            if !country then IsAbout(reason, COUNTRY)
            else if !continent then IsAbout(reason, CONTINENT)
            else if !asn then IsAbout(reason, ASN)
            else if reason.Flagged? then
              exists i :: 0 <= i < |rs.securityRules| && reason == Flagged(rs.securityRules[i]) &&
                          Trips(text, rs.securityRules[i], fields) &&
                          forall j :: 0 <= j < i ==> !Trips(text, rs.securityRules[j], fields)
            else
              reason.ThreatScore? && forall rule :: rule in rs.securityRules ==> !Trips(text, rule, fields)
  {
    hide Ascii, Text.Truthy, Trips, Text.Numeric, Text.NormalizeASN, FieldOf, EvaluateFlags, EvaluateLists, ListsPass;
    ListsDecide(rs.countries, COUNTRY, text.upper(FieldOf(fields, COUNTRY)), rs.allowUnknown);
    ListsDecide(rs.continents, CONTINENT, text.upper(FieldOf(fields, CONTINENT)), rs.allowUnknown);
    ListsDecide(rs.asns, ASN, text.NormalizeASN(FieldOf(fields, ASN)), rs.allowUnknown);
    FlagsPass(text, rs.securityRules, fields);
    if EvaluateFlags(text, rs.securityRules, fields).Deny? {
      FlaggedTrips(text, rs.securityRules, fields);
    }
  }

  lemma ListsDecide(lists: Lists, field: bytes, value: bytes, allowUnknown: bool)
    ensures EvaluateLists(lists, field, value, allowUnknown).Allow? <==> ListsPass(lists, value, allowUnknown)
    ensures EvaluateLists(lists, field, value, allowUnknown).Deny? ==>
              IsAbout(EvaluateLists(lists, field, value, allowUnknown).reason, field)
  {
  }

  /** Whether any rule would ever block a request, going by the rules alone. */
  predicate Active(rs: RuleSet)
  {
    rs.countries.Used() || rs.continents.Used() || rs.asns.Used() || rs.threatScoreAbove >= 0 ||
    exists i :: 0 <= i < |rs.securityRules| && rs.securityRules[i].enabled
  }

  /** Inactive rules allow every address that has data, and block the others exactly when unknowns are not allowed. */
  lemma InactiveAllowsFound(rs: RuleSet, text: Text, fields: map<bytes, bytes>, found: bool)
    requires !Active(rs)
    ensures Evaluate(rs, text, fields, found).Allow? <==> found || rs.allowUnknown
  {
    hide Text.Truthy, Text.Numeric, Text.NormalizeASN, FieldOf, Evaluate;
    AllowedIff(rs, text, fields, found);
    assert forall rule :: rule in rs.securityRules ==> !Trips(text, rule, fields);
  }

  /** A configuration with every rule off compiles to inactive rules, which deny an address without data. */
  lemma InactiveDeniesUnknown(text: Text, fields: map<bytes, bytes>)
    ensures var rs := Compiled(CountriesOnly([]), text);
            WellFormed(rs) && !Active(rs) && Evaluate(rs, text, fields, false) == Deny(NoData)
  {
    hide Ascii, Compiled, SecurityRules;
    NothingCompiled(text);
    AllOff();
  }

  lemma AllOff()
    ensures forall i :: 0 <= i < |SecurityRules(CountriesOnly([]))| ==> !SecurityRules(CountriesOnly([]))[i].enabled
  {
    hide Ascii;
  }

  // -------------------------------------------------------------------------
  // Tightening
  // -------------------------------------------------------------------------

  predicate TighterLists(a: Lists, b: Lists)
  {
    && (a.allowed != {} ==> b.allowed != {} && b.allowed <= a.allowed)
    && a.blocked <= b.blocked
  }

  /** The second flag is on whenever the first is, and spares no more. */
  predicate TighterRule(a: SecurityRule, b: SecurityRule)
  {
    a.field == b.field && (a.enabled ==> b.enabled) && (b.unless == a.unless || b.unless == [])
  }

  /**
   The second rule set is at least as strict: longer block lists, shorter but not empty allow lists, more
   flags, a lower threshold.
   */
  predicate Tighter(a: RuleSet, b: RuleSet)
  {
    && TighterLists(a.countries, b.countries) && TighterLists(a.continents, b.continents)
    && TighterLists(a.asns, b.asns)
    && |a.securityRules| == |b.securityRules|
    && (forall i :: 0 <= i < |a.securityRules| ==> TighterRule(a.securityRules[i], b.securityRules[i]))
    && (a.threatScoreAbove >= 0 ==> 0 <= b.threatScoreAbove <= a.threatScoreAbove)
    && (b.allowUnknown ==> a.allowUnknown)
  }

  lemma TighterListsDeny(a: Lists, b: Lists, value: bytes, x: bool, y: bool)
    requires TighterLists(a, b) && (y ==> x) && ListsPass(b, value, y)
    ensures ListsPass(a, value, x)
  {
  }

  lemma TighterTrips(text: Text, a: SecurityRule, b: SecurityRule, fields: map<bytes, bytes>)
    requires TighterRule(a, b) && Trips(text, a, fields)
    ensures Trips(text, b, fields)
  {
    hide Text.Truthy, FieldOf;
  }

  /** Tightening the rules never lets a request through that was denied before. */
  lemma TighteningNeverAllows(a: RuleSet, b: RuleSet, text: Text, fields: map<bytes, bytes>, found: bool)
    requires Tighter(a, b) && Evaluate(b, text, fields, found).Allow?
    ensures Evaluate(a, text, fields, found).Allow?
  {
    hide Text.Truthy, Trips, Text.Numeric, Text.NormalizeASN, FieldOf, Evaluate, ListsPass, TighterRule, TighterLists;
    AllowedIff(a, text, fields, found);
    AllowedIff(b, text, fields, found);
    if found {
      TighterListsDeny(a.countries, b.countries, text.upper(FieldOf(fields, COUNTRY)), a.allowUnknown, b.allowUnknown);
      TighterListsDeny(a.continents, b.continents, text.upper(FieldOf(fields, CONTINENT)), a.allowUnknown,
                       b.allowUnknown);
      TighterListsDeny(a.asns, b.asns, text.NormalizeASN(FieldOf(fields, ASN)), a.allowUnknown, b.allowUnknown);
      forall rule | rule in a.securityRules
        ensures !Trips(text, rule, fields)
      {
        var i :| 0 <= i < |a.securityRules| && a.securityRules[i] == rule;
        assert b.securityRules[i] in b.securityRules;
        if Trips(text, rule, fields) {
          TighterTrips(text, rule, b.securityRules[i], fields);
        }
      }
    }
  }

  // -------------------------------------------------------------------------
  // Tightening the configuration
  // -------------------------------------------------------------------------

  /** The second configuration has every blocking flag the first has on. */
  predicate FlagsAdded(a: Config, b: Config)
  {
    && (forall i :: 0 <= i < |FLAG_FIELDS| && Flags(a)[i] ==> Flags(b)[i])
    && (a.blockKnownGoodBots ==> b.blockKnownGoodBots)
  }

  lemma FlagsTighten(a: Config, b: Config)
    requires FlagsAdded(a, b)
    ensures |SecurityRules(a)| == |SecurityRules(b)|
    ensures forall i :: 0 <= i < |SecurityRules(a)| ==> TighterRule(SecurityRules(a)[i], SecurityRules(b)[i])
  {
    hide Ascii, Flags;
  }

  /** Turning any of the blocking flags on, and changing nothing else, never lets a denied request through. */
  lemma TurningFlagsOnNeverAllows(a: Config, b: Config, text: Text, fields: map<bytes, bytes>, found: bool)
    requires FlagsAdded(a, b)
    requires var x, y := Compiled(a, text), Compiled(b, text); y == x.(securityRules := y.securityRules)
    requires Evaluate(Compiled(b, text), text, fields, found).Allow?
    ensures Evaluate(Compiled(a, text), text, fields, found).Allow?
  {
    hide SecurityRules, TighterRule, NormalSet, Evaluate;
    FlagsTighten(a, b);
    TighteningNeverAllows(Compiled(a, text), Compiled(b, text), text, fields, found);
  }

  // -------------------------------------------------------------------------
  // A configuration with one list of countries
  // -------------------------------------------------------------------------

  /** Everything is switched off but the list of allowed countries. */
  function CountriesOnly(allowedCountries: seq<bytes>): Config
  {
    Config(allowedCountries, [], [], [], [], [],
           false, false, false, false, false, false, false, false, false, false, false, false, -1, false)
  }

  function CountryRules(allowed: set<bytes>): RuleSet
  {
    RuleSet(Lists(allowed, {}), Lists({}, {}), Lists({}, {}), SecurityRules(CountriesOnly([])), -1, false)
  }

  /** A country code as the configuration is meant to give it. */
  predicate IsCountryCode(text: Text, country: bytes)
  {
    |country| == 2 && COMMA !in country && text.trimSpace(country) == country && text.upper(country) == country
  }

  lemma NothingCompiled(text: Text)
    ensures Compiled(CountriesOnly([]), text) == CountryRules({}) && WellFormed(CountryRules({}))
  {
    hide Flags, Ascii;
  }

  lemma CountriesCompiled(text: Text, country: bytes)
    requires IsCountryCode(text, country)
    ensures Compiled(CountriesOnly([country]), text) == CountryRules({country}) && WellFormed(CountryRules({country}))
    ensures Compiled(CountriesOnly([]), text) == CountryRules({}) && WellFormed(CountryRules({}))
  {
    hide Split, Flags, Ascii;
    var one: seq<bytes> := [country];
    SplitWithout(country, COMMA);
    assert one[..0] == [];
    assert PartSet(one, UpperTrim(text)) == {country} by {
      assert UpperTrim(text)(one[0]) == country;
    }
    assert NormalSet(one, UpperTrim(text)) == {} + {country};
    assert SecurityRules(CountriesOnly([country])) == SecurityRules(CountriesOnly([])) by {
      SameFlags(country);
    }
  }

  lemma SameFlags(country: bytes)
    ensures Flags(CountriesOnly([country])) == Flags(CountriesOnly([]))
  {
  }

  lemma NoFlagTrips(text: Text, allowedCountries: seq<bytes>, fields: map<bytes, bytes>)
    ensures EvaluateFlags(text, SecurityRules(CountriesOnly(allowedCountries)), fields) == Allow
  {
    hide Ascii, Text.Truthy, EvaluateFlags;
    FlagsPass(text, SecurityRules(CountriesOnly(allowedCountries)), fields);
  }

  /** With one allowed country the verdict is the membership of the country in the list. */
  lemma CountryVerdict(text: Text, allowed: set<bytes>, fields: map<bytes, bytes>)
    ensures Evaluate(CountryRules(allowed), text, fields, true) ==
            EvaluateLists(Lists(allowed, {}), COUNTRY, text.upper(FieldOf(fields, COUNTRY)), false)
  {
    hide SecurityRules, EvaluateFlags, Ascii, Text.NormalizeASN, FieldOf;
    NoFlagTrips(text, [], fields);
  }

  /** Deleting the only allowed country from a configuration lets a denied request through. */
  lemma EmptyingAllowedLoosens(text: Text, country: bytes, other: bytes)
    returns (a: Config, b: Config, fields: map<bytes, bytes>)
    requires IsCountryCode(text, country) && text.upper(other) != [] && text.upper(other) != country
    ensures b == a.(allowedCountries := []) && a.allowedCountries == [country]
    ensures WellFormed(Compiled(a, text)) && WellFormed(Compiled(b, text))
    ensures Evaluate(Compiled(a, text), text, fields, true).Deny? &&
            Evaluate(Compiled(b, text), text, fields, true).Allow?
  {
    hide Compiled, WellFormed, CountryRules, Evaluate, Ascii;
    a, b, fields := CountriesOnly([country]), CountriesOnly([]), map[COUNTRY := other];
    CountriesCompiled(text, country);
    CountryVerdict(text, {country}, fields);
    CountryVerdict(text, {}, fields);
  }

  // -------------------------------------------------------------------------
  // Shortening the lists of one kind
  // -------------------------------------------------------------------------

  datatype ListKind = CountryLists | ContinentLists | AsnLists {
    function Field(): bytes
    {
      match this
      case CountryLists => COUNTRY
      case ContinentLists => CONTINENT
      case AsnLists => ASN
    }

    function Of(rs: RuleSet): Lists
    {
      match this
      case CountryLists => rs.countries
      case ContinentLists => rs.continents
      case AsnLists => rs.asns
    }

    function Replaced(rs: RuleSet, lists: Lists): RuleSet
    {
      match this
      case CountryLists => rs.(countries := lists)
      case ContinentLists => rs.(continents := lists)
      case AsnLists => rs.(asns := lists)
    }

    /** The form in which a field of this kind is looked up. */
    function Compared(text: Text, raw: bytes): bytes
    {
      if AsnLists? then text.NormalizeASN(raw) else text.upper(raw)
    }
  }

  function Ones(n: nat): (b: bytes)
    ensures |b| == n
  {
    seq(n, _ => 49)
  }

  /** The text functions leave strings of the digit one alone, the empty string among them. */
  ghost predicate KeepsDigits(text: Text)
  {
    && text.lower([]) == []
    && forall n: nat :: text.trimSpace(Ones(n)) == Ones(n) && text.upper(Ones(n)) == Ones(n)
  }

  /** A value of the kind's field that is compared as none of the taken ones. */
  lemma FreshValue(kind: ListKind, text: Text, taken: set<bytes>) returns (raw: bytes)
    requires KeepsDigits(text)
    ensures kind.Compared(text, raw) != [] && kind.Compared(text, raw) !in taken
  {
    var n := LongerThanAll(taken);
    raw := Ones(n + 1);
    assert text.trimSpace(Ones(n + 1)) == text.upper(Ones(n + 1)) == Ones(n + 1);
    assert !(Fields.AS <= raw) && raw != Ascii("0") by {
      assert Fields.AS[0] == 65 && raw[0] == 49 && Ascii("0")[0] == 48;
    }
    assert TrimPrefix(raw, Fields.AS) == raw;
  }

  lemma NothingCompared(kind: ListKind, text: Text)
    requires KeepsDigits(text)
    ensures kind.Compared(text, []) == []
  {
    assert Ones(0) == [];
    assert text.trimSpace(Ones(0)) == text.upper(Ones(0)) == Ones(0);
    assert |Fields.AS| == 2;
  }

  /** A compiled value is the normal form of some part, and not empty. */
  lemma {:induction false} MemberHasPart(values: seq<bytes>, normal: bytes -> bytes, v: bytes) returns (part: bytes)
    requires v in NormalSet(values, normal)
    ensures v != [] && normal(part) == v
    decreases |values|
  {
    var parts := Split(values[|values| - 1], COMMA);
    if v in PartSet(parts, normal) {
      var i :| 0 <= i < |parts| && normal(parts[i]) == v;
      part := parts[i];
    } else {
      part := MemberHasPart(values[..|values| - 1], normal, v);
    }
  }

  /** The lists of a compiled kind pass some value of its field. */
  lemma PassingValue(kind: ListKind, cfg: Config, text: Text) returns (raw: bytes)
    requires KeepsDigits(text) && WellFormed(Compiled(cfg, text))
    ensures ListsPass(kind.Of(Compiled(cfg, text)), kind.Compared(text, raw), Compiled(cfg, text).allowUnknown)
  {
    hide NormalSet, Text.NormalizeASN, SecurityRules;
    var lists := kind.Of(Compiled(cfg, text));
    raw := [];
    NothingCompared(kind, text);
    if lists.allowed != {} {
      var v :| v in lists.allowed;
      match kind
      case CountryLists =>
        var part := MemberHasPart(cfg.allowedCountries, UpperTrim(text), v);
        raw := text.trimSpace(part);
      case ContinentLists =>
        var part := MemberHasPart(cfg.allowedContinents, UpperTrim(text), v);
        raw := text.trimSpace(part);
      case AsnLists =>
        raw := MemberHasPart(cfg.allowedASNs, NormalAsn(text), v);
    }
  }

  /** Field maps in which only the fields of the three kinds have values. */
  function ListFields(country: bytes, continent: bytes, asn: bytes): map<bytes, bytes>
  {
    map[COUNTRY := country, CONTINENT := continent, ASN := asn]
  }

  lemma FirstLetters()
    ensures forall i :: 0 <= i < |FLAG_FIELDS| ==> FLAG_FIELDS[i] !in {COUNTRY, CONTINENT, ASN}
    ensures GOOD_BOT !in {COUNTRY, CONTINENT, ASN} && THREAT !in {COUNTRY, CONTINENT, ASN}
  {
    assert COUNTRY[0] == 'c' as int && CONTINENT[0] == 'c' as int && ASN[0] == 'a' as int && THREAT[0] == 't' as int;
    assert GOOD_BOT[0] == 'i' as int;
    assert forall i :: 0 <= i < |FLAG_FIELDS| ==> FLAG_FIELDS[i][0] == 'i' as int;
  }

  lemma NoFlagOfKinds(text: Text, cfg: Config, fields: map<bytes, bytes>)
    requires KeepsDigits(text) && fields.Keys == {COUNTRY, CONTINENT, ASN}
    ensures forall rule :: rule in SecurityRules(cfg) ==> !Trips(text, rule, fields)
    ensures text.Numeric(FieldOf(fields, THREAT)).None?
  {
    hide Ascii, Flags;
    FirstLetters();
    assert Ones(0) == [] && text.trimSpace(Ones(0)) == Ones(0);
    NotTruthy(text);
  }

  lemma NotTruthy(text: Text)
    requires KeepsDigits(text)
    ensures !text.Truthy([]) && text.Numeric([]).None?
  {
    assert Ones(0) == [] && text.trimSpace(Ones(0)) == Ones(0);
    assert |Fields.AS| == 2 && |Ascii("true")| == 4 && |Ascii("1")| == 1 && |Ascii("yes")| == 3 && |Ascii("on")| == 2;
  }

  /** Three values, one for each kind, are judged by the lists of their kinds alone. */
  lemma JudgedByLists(rs: RuleSet, cfg: Config, text: Text, country: bytes, continent: bytes, asn: bytes)
    requires KeepsDigits(text) && rs.securityRules == SecurityRules(cfg)
    ensures Evaluate(rs, text, ListFields(country, continent, asn), true).Allow? <==>
            && ListsPass(rs.countries, CountryLists.Compared(text, country), rs.allowUnknown)
            && ListsPass(rs.continents, ContinentLists.Compared(text, continent), rs.allowUnknown)
            && ListsPass(rs.asns, AsnLists.Compared(text, asn), rs.allowUnknown)
  {
    hide Ascii, SecurityRules, Trips, Text.NormalizeASN, Text.Numeric, ListsPass, Evaluate;
    var fields := ListFields(country, continent, asn);
    FieldsDiffer();
    NoFlagOfKinds(text, cfg, fields);
    AllowedIff(rs, text, fields, true);
  }

  /** Emptying the list of allowed values of any kind admits a request that was denied, whatever is blocked instead. */
  lemma EmptyingAdmits(kind: ListKind, cfg: Config, text: Text, blocked: set<bytes>) returns (fields: map<bytes, bytes>)
    requires KeepsDigits(text) && WellFormed(Compiled(cfg, text)) && kind.Of(Compiled(cfg, text)).allowed != {}
    ensures Evaluate(Compiled(cfg, text), text, fields, true).Deny?
    ensures Evaluate(kind.Replaced(Compiled(cfg, text), Lists({}, blocked)), text, fields, true).Allow?
  {
    hide Compiled, SecurityRules, Text.NormalizeASN, Evaluate, WellFormed, KeepsDigits;
    var rs := Compiled(cfg, text);
    var loose := kind.Replaced(rs, Lists({}, blocked));
    var country := PassingValue(CountryLists, cfg, text);
    var continent := PassingValue(ContinentLists, cfg, text);
    var asn := PassingValue(AsnLists, cfg, text);
    var unseen := FreshValue(kind, text, kind.Of(rs).allowed + blocked);
    match kind {
      case CountryLists => country := unseen;
      case ContinentLists => continent := unseen;
      case AsnLists => asn := unseen;
    }
    fields := ListFields(country, continent, asn);
    assert rs.securityRules == loose.securityRules == SecurityRules(cfg) by {
      CompiledFlags(cfg, text);
    }
    JudgedByLists(rs, cfg, text, country, continent, asn);
    JudgedByLists(loose, cfg, text, country, continent, asn);
  }

  lemma CompiledFlags(cfg: Config, text: Text)
    ensures Compiled(cfg, text).securityRules == SecurityRules(cfg)
  {
  }

  /**
   For each kind of list of every accepted configuration: shortening the allowed values and lengthening the
   blocked ones denies every request that was denied before if and only if it does not leave a list of allowed
   values empty.
   */
  lemma ShrinkingTightensIff(kind: ListKind, cfg: Config, text: Text, lists: Lists)
    requires KeepsDigits(text) && WellFormed(Compiled(cfg, text))
    requires lists.allowed <= kind.Of(Compiled(cfg, text)).allowed &&
             kind.Of(Compiled(cfg, text)).blocked <= lists.blocked
    ensures var rs := Compiled(cfg, text);
            (forall fields, found :: Evaluate(kind.Replaced(rs, lists), text, fields, found).Allow? ==>
                                     Evaluate(rs, text, fields, found).Allow?) <==>
            (kind.Of(rs).allowed != {} ==> lists.allowed != {})
  {
    hide Compiled, Evaluate, WellFormed, KeepsDigits;
    var rs := Compiled(cfg, text);
    if kind.Of(rs).allowed != {} ==> lists.allowed != {} {
      forall fields, found | Evaluate(kind.Replaced(rs, lists), text, fields, found).Allow?
        ensures Evaluate(rs, text, fields, found).Allow?
      {
        TighteningNeverAllows(rs, kind.Replaced(rs, lists), text, fields, found);
      }
    } else {
      var fields := EmptyingAdmits(kind, cfg, text, lists.blocked);
      assert lists == Lists({}, lists.blocked);
    }
  }
}
