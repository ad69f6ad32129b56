/**
 What a configuration means: each list and option by the names and values an administrator writes, and which
 requests the rules compiled from them allow.
 */
module Policies {
  import opened Bytes
  import opened Readers
  import opened Rules

  // -------------------------------------------------------------------------
  // Lists
  // -------------------------------------------------------------------------

  /** A configured list, of comma separated values, names `v` in its normal form. */
  ghost predicate Names(values: seq<bytes>, normal: bytes -> bytes, v: bytes)
  {
    v != [] && exists value, part :: value in values && part in Split(value, 44) && normal(part) == v
  }

  lemma PartSetMembers(parts: seq<bytes>, normal: bytes -> bytes, v: bytes)
    ensures v in PartSet(parts, normal) <==> v != [] && exists part :: part in parts && normal(part) == v
  {
    if part :| part in parts && normal(part) == v {
      var i :| 0 <= i < |parts| && parts[i] == part;
      assert normal(parts[i]) == v;
    }
  }

  lemma {:induction false} NormalSetIsNamed(values: seq<bytes>, normal: bytes -> bytes, v: bytes)
    ensures v in NormalSet(values, normal) <==> Names(values, normal, v)
    decreases |values|
  {
    hide Split;
    if values != [] {
      var n := |values| - 1;
      NormalSetIsNamed(values[..n], normal, v);
      PartSetMembers(Split(values[n], COMMA), normal, v);
      if Names(values[..n], normal, v) {
        var value, part :| value in values[..n] && part in Split(value, 44) && normal(part) == v;
        assert value in values;
      }
      if Names(values, normal, v) {
        var value, part :| value in values && part in Split(value, 44) && normal(part) == v;
        assert value in values[..n] || value == values[n];
      }
      if part :| part in Split(values[n], 44) && normal(part) == v {
        assert values[n] in values;
      }
    }
  }

  /** The lists of one kind pass a value: it must be named if anything is allowed by name, and must not be blocked. */
  ghost predicate ListsAdmit(allowed: seq<bytes>, blocked: seq<bytes>, normal: bytes -> bytes, v: bytes,
                             allowUnknown: bool)
  {
    && ((exists x :: Names(allowed, normal, x)) ==> if v == [] then allowUnknown else Names(allowed, normal, v))
    && !Names(blocked, normal, v)
  }

  lemma ListsAdmitIff(allowed: seq<bytes>, blocked: seq<bytes>, normal: bytes -> bytes, v: bytes, allowUnknown: bool)
    ensures ListsPass(Lists(NormalSet(allowed, normal), NormalSet(blocked, normal)), v, allowUnknown) <==>
            ListsAdmit(allowed, blocked, normal, v, allowUnknown)
  {
    hide NormalSet, Names;
    forall x
      ensures x in NormalSet(allowed, normal) <==> Names(allowed, normal, x)
      ensures x in NormalSet(blocked, normal) <==> Names(blocked, normal, x)
    {
      NormalSetIsNamed(allowed, normal, x);
      NormalSetIsNamed(blocked, normal, x);
    }
    NothingNamed(blocked, normal);
    if x :| Names(allowed, normal, x) {
      assert x in NormalSet(allowed, normal);
    }
    if NormalSet(allowed, normal) != {} {
      var x :| x in NormalSet(allowed, normal);
      assert Names(allowed, normal, x);
    }
  }

  lemma NothingNamed(values: seq<bytes>, normal: bytes -> bytes)
    ensures !Names(values, normal, [])
  {
  }

  /** AS numbers compare alike with and without their prefix; an empty or zero number is unknown. */
  lemma AsnForms(text: Text, s: bytes, digits: bytes)
    requires var t := text.upper(text.trimSpace(s));
             t == Ascii("AS") + digits || (t == digits && !(Ascii("AS") <= digits))
    ensures text.NormalizeASN(s) == if digits == [] || digits == Ascii("0") then [] else Ascii("AS") + digits
  {
    var t := text.upper(text.trimSpace(s));
    if t == Ascii("AS") + digits {
      assert t[|Ascii("AS")|..] == digits;
    }
  }

  // -------------------------------------------------------------------------
  // Options
  // -------------------------------------------------------------------------

  /** The field says yes. */
  predicate On(text: Text, fields: map<bytes, bytes>, name: bytes)
  {
    var v := text.lower(text.trimSpace(if name in fields then fields[name] else []));
    v == Ascii("true") || v == Ascii("1") || v == Ascii("yes") || v == Ascii("on")
  }

  predicate NetworksPass(cfg: Config, text: Text, fields: map<bytes, bytes>)
  {
    && !(cfg.blockTor && On(text, fields, IS_TOR))
    && !(cfg.blockVPN && On(text, fields, IS_VPN))
    && !(cfg.blockProxy && On(text, fields, IS_PROXY))
    && !(cfg.blockRelay && On(text, fields, IS_RELAY))
  }

  predicate ActorsPass(cfg: Config, text: Text, fields: map<bytes, bytes>)
  {
    && !(cfg.blockResidentialProxy && On(text, fields, IS_RESIDENTIAL_PROXY))
    && !(cfg.blockAnonymous && On(text, fields, IS_ANONYMOUS))
    && !(cfg.blockKnownAttacker && On(text, fields, IS_KNOWN_ATTACKER))
    && !(cfg.blockBot && On(text, fields, IS_BOT) && (cfg.blockKnownGoodBots || !On(text, fields, GOOD_BOT)))
  }

  predicate SourcesPass(cfg: Config, text: Text, fields: map<bytes, bytes>)
  {
    && !(cfg.blockSpam && On(text, fields, IS_SPAM))
    && !(cfg.blockCloudProvider && On(text, fields, IS_CLOUD_PROVIDER))
    && !(cfg.blockCorporateGateway && On(text, fields, IS_CORPORATE_GATEWAY))
  }

  /** No option that is on blocks the request. */
  predicate NoOptionBlocks(cfg: Config, text: Text, fields: map<bytes, bytes>)
  {
    NetworksPass(cfg, text, fields) && ActorsPass(cfg, text, fields) && SourcesPass(cfg, text, fields)
  }

  lemma TruthyIsOn(text: Text, fields: map<bytes, bytes>, name: bytes)
    ensures text.Truthy(FieldOf(fields, name)) <==> On(text, fields, name)
  {
    hide Ascii;
  }

  /** One option: it blocks when its field says yes, unless another field spares the request. */
  lemma OptionTrips(text: Text, fields: map<bytes, bytes>, rule: SecurityRule)
    ensures Trips(text, rule, fields) <==>
            rule.enabled && On(text, fields, rule.field) && !(rule.unless != [] && On(text, fields, rule.unless))
  {
    hide Ascii, Text.Truthy, On;
    TruthyIsOn(text, fields, rule.field);
    TruthyIsOn(text, fields, rule.unless);
  }

  /** The flags and their fields, in the order they are tested. */
  lemma FlagsAt(cfg: Config)
    ensures var f := Flags(cfg);
            && f[0] == cfg.blockTor && f[1] == cfg.blockVPN && f[2] == cfg.blockProxy && f[3] == cfg.blockRelay
            && f[4] == cfg.blockResidentialProxy && f[5] == cfg.blockAnonymous && f[6] == cfg.blockKnownAttacker
            && f[7] == cfg.blockBot && f[8] == cfg.blockSpam && f[9] == cfg.blockCloudProvider
            && f[10] == cfg.blockCorporateGateway
  {
    hide *;
    FirstFlags(cfg);
    MiddleFlags(cfg);
    LastFlags(cfg);
  }

  lemma FirstFlags(cfg: Config)
    ensures Flags(cfg)[0] == cfg.blockTor && Flags(cfg)[1] == cfg.blockVPN && Flags(cfg)[2] == cfg.blockProxy
  {
  }

  lemma MiddleFlags(cfg: Config)
    ensures Flags(cfg)[3] == cfg.blockRelay && Flags(cfg)[4] == cfg.blockResidentialProxy
  {
  }

  lemma LastFlags(cfg: Config)
    ensures var f := Flags(cfg);
            && f[5] == cfg.blockAnonymous && f[6] == cfg.blockKnownAttacker && f[7] == cfg.blockBot
            && f[8] == cfg.blockSpam && f[9] == cfg.blockCloudProvider && f[10] == cfg.blockCorporateGateway
  {
  }

  lemma FlagFieldsAt()
    ensures |FLAG_FIELDS| == 11
    ensures && FLAG_FIELDS[0] == IS_TOR && FLAG_FIELDS[1] == IS_VPN && FLAG_FIELDS[2] == IS_PROXY
            && FLAG_FIELDS[3] == IS_RELAY && FLAG_FIELDS[4] == IS_RESIDENTIAL_PROXY
            && FLAG_FIELDS[5] == IS_ANONYMOUS && FLAG_FIELDS[6] == IS_KNOWN_ATTACKER && FLAG_FIELDS[7] == IS_BOT
            && FLAG_FIELDS[8] == IS_SPAM && FLAG_FIELDS[9] == IS_CLOUD_PROVIDER
            && FLAG_FIELDS[10] == IS_CORPORATE_GATEWAY
  {
    hide Ascii, IS_TOR, IS_VPN, IS_PROXY, IS_RELAY, IS_RESIDENTIAL_PROXY, IS_ANONYMOUS, IS_KNOWN_ATTACKER, IS_BOT,
         IS_SPAM, IS_CLOUD_PROVIDER, IS_CORPORATE_GATEWAY;
  }

  lemma SecurityRulesAt(cfg: Config)
    ensures |SecurityRules(cfg)| == |FLAG_FIELDS|
    ensures forall i :: 0 <= i < |FLAG_FIELDS| ==>
              SecurityRules(cfg)[i] ==
              SecurityRule(Flags(cfg)[i], FLAG_FIELDS[i],
                           if FLAG_FIELDS[i] == IS_BOT && !cfg.blockKnownGoodBots then GOOD_BOT else [])
  {
    hide Ascii, Flags, FLAG_FIELDS;
  }

  lemma OptionAt(cfg: Config, text: Text, fields: map<bytes, bytes>, i: nat)
    requires i < |FLAG_FIELDS|
    ensures |SecurityRules(cfg)| == |FLAG_FIELDS|
    ensures Trips(text, SecurityRules(cfg)[i], fields) <==>
            && Flags(cfg)[i] && On(text, fields, FLAG_FIELDS[i])
            && (FLAG_FIELDS[i] == IS_BOT ==> cfg.blockKnownGoodBots || !On(text, fields, GOOD_BOT))
  {
    hide Ascii, On, Trips, SecurityRules, Flags, FLAG_FIELDS, IS_BOT, GOOD_BOT;
    SecurityRulesAt(cfg);
    OptionTrips(text, fields, SecurityRules(cfg)[i]);
    GoodBotIsNamed();
  }

  lemma GoodBotIsNamed()
    ensures GOOD_BOT != []
  {
    assert |GOOD_BOT| == 17;
  }

  lemma BotIsNoOther()
    ensures IS_BOT !in { IS_TOR, IS_VPN, IS_PROXY, IS_RELAY, IS_RESIDENTIAL_PROXY, IS_ANONYMOUS, IS_KNOWN_ATTACKER,
                         IS_SPAM, IS_CLOUD_PROVIDER, IS_CORPORATE_GATEWAY }
  {
    assert IS_BOT[3] == 'b' as int;
    assert IS_TOR[3] == 't' as int && IS_VPN[3] == 'v' as int && IS_PROXY[3] == 'p' as int && IS_RELAY[3] == 'r' as int;
    assert IS_RESIDENTIAL_PROXY[3] == 'r' as int && IS_ANONYMOUS[3] == 'a' as int;
    assert IS_KNOWN_ATTACKER[3] == 'k' as int && IS_SPAM[3] == 's' as int;
    assert IS_CLOUD_PROVIDER[3] == 'c' as int && IS_CORPORATE_GATEWAY[3] == 'c' as int;
  }

  lemma EachOfEleven(text: Text, fields: map<bytes, bytes>, rules: seq<SecurityRule>)
    requires |rules| == 11
    ensures (forall rule :: rule in rules ==> !Trips(text, rule, fields)) <==>
            && NoneTrips(text, fields, rules[..4]) && NoneTrips(text, fields, rules[4..8])
            && NoneTrips(text, fields, rules[8..])
  {
    hide Trips;
    assert rules == rules[..4] + rules[4..8] + rules[8..];
    assert forall rule :: rule in rules <==> rule in rules[..4] || rule in rules[4..8] || rule in rules[8..];
  }

  predicate NoneTrips(text: Text, fields: map<bytes, bytes>, rules: seq<SecurityRule>)
  {
    forall rule :: rule in rules ==> !Trips(text, rule, fields)
  }

  lemma NetworkOptions(cfg: Config, text: Text, fields: map<bytes, bytes>)
    ensures |SecurityRules(cfg)| == 11
    ensures NoneTrips(text, fields, SecurityRules(cfg)[..4]) <==> NetworksPass(cfg, text, fields)
  {
    hide Ascii, On, Trips, SecurityRules, Flags, FLAG_FIELDS, GOOD_BOT;
    hide IS_TOR, IS_VPN, IS_PROXY, IS_RELAY, IS_RESIDENTIAL_PROXY, IS_ANONYMOUS, IS_KNOWN_ATTACKER, IS_BOT,
         IS_SPAM, IS_CLOUD_PROVIDER, IS_CORPORATE_GATEWAY;
    FlagsAt(cfg);
    FlagFieldsAt();
    BotIsNoOther();
    OptionAt(cfg, text, fields, 0);
    OptionAt(cfg, text, fields, 1);
    OptionAt(cfg, text, fields, 2);
    OptionAt(cfg, text, fields, 3);
    var rules := SecurityRules(cfg);
    var some := rules[..4];
    assert rules[0] == some[0] && rules[1] == some[1] && rules[2] == some[2] && rules[3] == some[3];
    assert forall rule :: rule in some <==> rule == some[0] || rule == some[1] || rule == some[2] || rule == some[3];
  }

  lemma ActorOptions(cfg: Config, text: Text, fields: map<bytes, bytes>)
    ensures |SecurityRules(cfg)| == 11
    ensures NoneTrips(text, fields, SecurityRules(cfg)[4..8]) <==> ActorsPass(cfg, text, fields)
  {
    hide Ascii, On, Trips, SecurityRules, Flags, FLAG_FIELDS, GOOD_BOT;
    hide IS_TOR, IS_VPN, IS_PROXY, IS_RELAY, IS_RESIDENTIAL_PROXY, IS_ANONYMOUS, IS_KNOWN_ATTACKER, IS_BOT,
         IS_SPAM, IS_CLOUD_PROVIDER, IS_CORPORATE_GATEWAY;
    FlagsAt(cfg);
    FlagFieldsAt();
    BotIsNoOther();
    OptionAt(cfg, text, fields, 4);
    OptionAt(cfg, text, fields, 5);
    OptionAt(cfg, text, fields, 6);
    OptionAt(cfg, text, fields, 7);
    var rules := SecurityRules(cfg);
    var some := rules[4..8];
    assert rules[4] == some[0] && rules[5] == some[1] && rules[6] == some[2] && rules[7] == some[3];
    assert forall rule :: rule in some <==> rule == some[0] || rule == some[1] || rule == some[2] || rule == some[3];
  }

  lemma SourceOptions(cfg: Config, text: Text, fields: map<bytes, bytes>)
    ensures |SecurityRules(cfg)| == 11
    ensures NoneTrips(text, fields, SecurityRules(cfg)[8..]) <==> SourcesPass(cfg, text, fields)
  {
    hide Ascii, On, Trips, SecurityRules, Flags, FLAG_FIELDS, GOOD_BOT;
    hide IS_TOR, IS_VPN, IS_PROXY, IS_RELAY, IS_RESIDENTIAL_PROXY, IS_ANONYMOUS, IS_KNOWN_ATTACKER, IS_BOT,
         IS_SPAM, IS_CLOUD_PROVIDER, IS_CORPORATE_GATEWAY;
    FlagsAt(cfg);
    FlagFieldsAt();
    BotIsNoOther();
    OptionAt(cfg, text, fields, 8);
    OptionAt(cfg, text, fields, 9);
    OptionAt(cfg, text, fields, 10);
    var rules := SecurityRules(cfg);
    var some := rules[8..];
    assert rules[8] == some[0] && rules[9] == some[1] && rules[10] == some[2];
    assert forall rule :: rule in some <==> rule == some[0] || rule == some[1] || rule == some[2];
  }

  lemma NoOptionTrips(cfg: Config, text: Text, fields: map<bytes, bytes>)
    ensures (forall rule :: rule in SecurityRules(cfg) ==> !Trips(text, rule, fields)) <==>
            NoOptionBlocks(cfg, text, fields)
  {
    hide Ascii, On, Trips, SecurityRules, Flags, FLAG_FIELDS, GOOD_BOT, NoneTrips;
    hide IS_TOR, IS_VPN, IS_PROXY, IS_RELAY, IS_RESIDENTIAL_PROXY, IS_ANONYMOUS, IS_KNOWN_ATTACKER, IS_BOT,
         IS_SPAM, IS_CLOUD_PROVIDER, IS_CORPORATE_GATEWAY;
    NetworkOptions(cfg, text, fields);
    ActorOptions(cfg, text, fields);
    SourceOptions(cfg, text, fields);
    EachOfEleven(text, fields, SecurityRules(cfg));
  }

  // -------------------------------------------------------------------------
  // The threat score
  // -------------------------------------------------------------------------

  /** The score, parsed without white space and a leading "AS", is a number above the threshold. */
  predicate Exceeds(text: Text, score: bytes, threshold: int)
  {
    var trimmed := text.trimSpace(score);
    var digits := text.trimSpace(if Ascii("AS") <= trimmed then trimmed[2..] else trimmed);
    && digits != [] && text.parseFloat(digits).Some?
    && match text.parseFloat(digits).value
       case Finite(r) => r > threshold as real
       case PosInf => true
       case _ => false
  }

  lemma ExceedsIsAbove(text: Text, score: bytes, threshold: int)
    ensures Above(text.Numeric(score), threshold) <==> Exceeds(text, score, threshold)
  {
    assert |Ascii("AS")| == 2;
  }

  // -------------------------------------------------------------------------
  // The configuration as a whole
  // -------------------------------------------------------------------------

  /**
   The rules compiled from a configuration allow a request exactly when every list passes its field, no option
   that is on blocks it, and its threat score is not above the threshold; without data, when unknowns are allowed.
   */
  lemma ConfigurationAllowsIff(cfg: Config, text: Text, fields: map<bytes, bytes>, found: bool)
    ensures Evaluate(Compiled(cfg, text), text, fields, found).Allow? <==>
            if !found then cfg.allowUnknown
            else
              && ListsAdmit(cfg.allowedCountries, cfg.blockedCountries, UpperTrim(text),
                            text.upper(FieldOf(fields, COUNTRY)), cfg.allowUnknown)
              && ListsAdmit(cfg.allowedContinents, cfg.blockedContinents, UpperTrim(text),
                            text.upper(FieldOf(fields, CONTINENT)), cfg.allowUnknown)
              && ListsAdmit(cfg.allowedASNs, cfg.blockedASNs, NormalAsn(text),
                            text.NormalizeASN(FieldOf(fields, ASN)), cfg.allowUnknown)
              && NoOptionBlocks(cfg, text, fields)
              && !(cfg.blockThreatScoreAbove >= 0 &&
                   Exceeds(text, FieldOf(fields, THREAT), cfg.blockThreatScoreAbove))
  {
    hide Ascii, NormalSet, ListsPass, ListsAdmit, SecurityRules, NoOptionBlocks, Exceeds, Above, Trips, Evaluate;
    hide Text.NormalizeASN, Text.Numeric, FieldOf;
    AllowedIff(Compiled(cfg, text), text, fields, found);
    ListsAdmitIff(cfg.allowedCountries, cfg.blockedCountries, UpperTrim(text), text.upper(FieldOf(fields, COUNTRY)),
                  cfg.allowUnknown);
    ListsAdmitIff(cfg.allowedContinents, cfg.blockedContinents, UpperTrim(text),
                  text.upper(FieldOf(fields, CONTINENT)), cfg.allowUnknown);
    ListsAdmitIff(cfg.allowedASNs, cfg.blockedASNs, NormalAsn(text), text.NormalizeASN(FieldOf(fields, ASN)),
                  cfg.allowUnknown);
    NoOptionTrips(cfg, text, fields);
    ExceedsIsAbove(text, FieldOf(fields, THREAT), cfg.blockThreatScoreAbove);
  }

  /** The compiled rules warn of blocking exactly when they read some field. */
  lemma {:induction false} ReadsFlagsIff(rules: seq<SecurityRule>, name: bytes)
    ensures name in FlagFields(rules) <==>
            exists rule :: rule in rules && rule.enabled && (name == rule.field || (name == rule.unless && name != []))
    decreases |rules|
  {
    if rules != [] {
      var n := |rules| - 1;
      ReadsFlagsIff(rules[..n], name);
      assert forall rule :: rule in rules <==> rule in rules[..n] || rule == rules[n];
    }
  }

  /** Exactly which fields the rules read. */
  lemma RequiredIff(rs: RuleSet, name: bytes)
    ensures name in RequiredFields(rs) <==>
            || (name == COUNTRY && (rs.countries.allowed != {} || rs.countries.blocked != {}))
            || (name == CONTINENT && (rs.continents.allowed != {} || rs.continents.blocked != {}))
            || (name == ASN && (rs.asns.allowed != {} || rs.asns.blocked != {}))
            || (name == THREAT && rs.threatScoreAbove >= 0)
            || exists rule :: rule in rs.securityRules && rule.enabled &&
                              (name == rule.field || (name == rule.unless && name != []))
  {
    hide Ascii, FlagFields;
    ReadsFlagsIff(rs.securityRules, name);
  }

  /** Rules are active exactly when they read some field. */
  lemma ActiveIffReads(rs: RuleSet)
    ensures Active(rs) <==> RequiredFields(rs) != []
  {
    hide Ascii, FlagFields;
    if i :| 0 <= i < |rs.securityRules| && rs.securityRules[i].enabled {
      FlagFieldsHold(rs.securityRules, i);
    }
    if FlagFields(rs.securityRules) != [] {
      var name := FlagFields(rs.securityRules)[0];
      ReadsFlagsIff(rs.securityRules, name);
    }
  }
}
