/** The policy model and its loader (crates/ciphr-policy/src/model.rs). */
module Policy {
  import opened Basics
  import opened Path
  import opened Pattern

  datatype Capability = Read | Write | Delete | List | Undelete | Inspect | Revoke {
    predicate IsControlPlane() {
      Inspect? || Revoke?
    }

    function Label(): string {
      match this
      case Read => "read"
      case Write => "write"
      case Delete => "delete"
      case List => "list"
      case Undelete => "undelete"
      case Inspect => "inspect"
      case Revoke => "revoke"
    }
  }

  const ALL_CAPABILITIES := [Read, Write, Delete, List, Undelete, Inspect, Revoke]

  function FindCapability(name: string, candidates: seq<Capability>): (found: Option<Capability>)
    ensures found.Some? ==> found.value in candidates && found.value.Label() == name
    ensures found.None? ==> forall c :: c in candidates ==> c.Label() != name
  {
    if candidates == [] then None
    else if candidates[0].Label() == name then Some(candidates[0])
    else FindCapability(name, candidates[1..])
  }

  function ParseCapability(name: string): Option<Capability> {
    FindCapability(name, ALL_CAPABILITIES)
  }

  // ----- the file as TOML gives it

  datatype RawRule = RawRule(path: string, capabilities: seq<string>)
  datatype RawPolicy = RawPolicy(name: string, rules: seq<RawRule>)
  datatype RawIdentity = RawIdentity(name: string, kind: string, policies: seq<string>)
  datatype RawConfig = RawConfig(identities: seq<RawIdentity>, policies: seq<RawPolicy>)

  // ----- the model

  datatype IdentityKind = Machine | Human

  datatype Rule = Rule(pattern: PathPattern, capabilities: set<Capability>) {
    predicate IsDenial() {
      capabilities == {}
    }
  }

  datatype Policy = Policy(name: string, rules: seq<Rule>)
  datatype Identity = Identity(name: string, kind: IdentityKind, policies: seq<string>)
  datatype PolicySet = PolicySet(identities: map<string, Identity>, policies: map<string, Policy>)

  datatype PolicyError =
    | BadPattern(policy: string, path: string, reason: PatternError)
    | BadCapability(policy: string, pattern: string, found: string)
    | DuplicateCapability(policy: string, pattern: string, capability: string)
    | SecretCapabilityOnControlPlane(policy: string, pattern: string, secretCapability: Capability)
    | DuplicatePattern(policy: string, pattern: string)
    | DuplicatePolicy(name: string)
    | DuplicateIdentity(name: string)
    | UnknownPolicy(identity: string, policy: string)
    | DuplicatePolicyReference(identity: string, policy: string)
    | UnknownIdentityKind(identity: string, kind: string)

  // ----- the loader, as a function

  function LoadCapabilities(policy: string, pattern: PathPattern, names: seq<string>, seen: set<Capability>)
    : Result<set<Capability>, PolicyError>
  {
    if names == [] then Ok(seen)
    else
      match ParseCapability(names[0])
      case None => Err(BadCapability(policy, pattern.text, names[0]))
      case Some(capability) =>
        if capability in seen then Err(DuplicateCapability(policy, pattern.text, names[0]))
        else if pattern.NamesReservedPrefix() && !capability.IsControlPlane() then
          Err(SecretCapabilityOnControlPlane(policy, pattern.text, capability))
        else LoadCapabilities(policy, pattern, names[1..], seen + {capability})
  }

  predicate HasPattern(rules: seq<Rule>, pattern: PathPattern) {
    exists i :: 0 <= i < |rules| && rules[i].pattern == pattern
  }

  function LoadRules(u: Unicode, policy: string, raw: seq<RawRule>, rules: seq<Rule>): Result<seq<Rule>, PolicyError> {
    if raw == [] then Ok(rules)
    else
      match ParsePattern(u, raw[0].path)
      case Err(reason) => Err(BadPattern(policy, raw[0].path, reason))
      case Ok(pattern) =>
        if HasPattern(rules, pattern) then Err(DuplicatePattern(policy, pattern.text))
        else
          var capabilities :- LoadCapabilities(policy, pattern, raw[0].capabilities, {});
          LoadRules(u, policy, raw[1..], rules + [Rule(pattern, capabilities)])
  }

  function LoadPolicy(u: Unicode, raw: RawPolicy): Result<Policy, PolicyError> {
    var rules :- LoadRules(u, raw.name, raw.rules, []);
    Ok(Policy(raw.name, rules))
  }

  function LoadPolicies(u: Unicode, raw: seq<RawPolicy>, policies: map<string, Policy>)
    : Result<map<string, Policy>, PolicyError>
  {
    if raw == [] then Ok(policies)
    else
      var policy :- LoadPolicy(u, raw[0]);
      if policy.name in policies then Err(DuplicatePolicy(policy.name))
      else LoadPolicies(u, raw[1..], policies[policy.name := policy])
  }

  function CheckReferences(identity: string, names: seq<string>, policies: map<string, Policy>, seen: set<string>)
    : Option<PolicyError>
  {
    if names == [] then None
    else if names[0] !in policies then Some(UnknownPolicy(identity, names[0]))
    else if names[0] in seen then Some(DuplicatePolicyReference(identity, names[0]))
    else CheckReferences(identity, names[1..], policies, seen + {names[0]})
  }

  function ParseKind(kind: string): Option<IdentityKind> {
    if kind == "machine" then Some(Machine) else if kind == "human" then Some(Human) else None
  }

  function LoadIdentity(raw: RawIdentity, policies: map<string, Policy>): Result<Identity, PolicyError> {
    match ParseKind(raw.kind)
    case None => Err(UnknownIdentityKind(raw.name, raw.kind))
    case Some(kind) =>
      match CheckReferences(raw.name, raw.policies, policies, {})
      case Some(e) => Err(e)
      case None => Ok(Identity(raw.name, kind, raw.policies))
  }

  function LoadIdentities(raw: seq<RawIdentity>, policies: map<string, Policy>, identities: map<string, Identity>)
    : Result<map<string, Identity>, PolicyError>
  {
    if raw == [] then Ok(identities)
    else
      var identity :- LoadIdentity(raw[0], policies);
      if identity.name in identities then Err(DuplicateIdentity(identity.name))
      else LoadIdentities(raw[1..], policies, identities[identity.name := identity])
  }

  function LoadConfig(u: Unicode, raw: RawConfig): Result<PolicySet, PolicyError> {
    var policies :- LoadPolicies(u, raw.policies, map[]);
    var identities :- LoadIdentities(raw.identities, policies, map[]);
    Ok(PolicySet(identities, policies))
  }

  // ----- the loader, as the source runs it

  method BuildPolicy(u: Unicode, raw: RawPolicy) returns (r: Result<Policy, PolicyError>)
    ensures r == LoadPolicy(u, raw)
  {
    var rules := [];
    assert raw.rules[0..] == raw.rules;
    for i := 0 to |raw.rules|
      invariant LoadRules(u, raw.name, raw.rules, []) == LoadRules(u, raw.name, raw.rules[i..], rules)
    {
      var rawRule := raw.rules[i];
      assert raw.rules[i..][1..] == raw.rules[i + 1..];
      var parsed := Pattern.Parse(u, rawRule.path);
      if parsed.Err? {
        return Err(BadPattern(raw.name, rawRule.path, parsed.error));
      }
      var pattern := parsed.value;
      if HasPattern(rules, pattern) {
        return Err(DuplicatePattern(raw.name, pattern.text));
      }
      var capabilities: set<Capability> := {};
      var names := rawRule.capabilities;
      assert names[0..] == names;
      for j := 0 to |names|
        invariant LoadCapabilities(raw.name, pattern, names, {})
               == LoadCapabilities(raw.name, pattern, names[j..], capabilities)
      {
        assert names[j..][1..] == names[j + 1..];
        var capability := ParseCapability(names[j]);
        if capability.None? {
          return Err(BadCapability(raw.name, pattern.text, names[j]));
        }
        if capability.value in capabilities {
          return Err(DuplicateCapability(raw.name, pattern.text, names[j]));
        }
        capabilities := capabilities + {capability.value};
        if pattern.NamesReservedPrefix() && !capability.value.IsControlPlane() {
          return Err(SecretCapabilityOnControlPlane(raw.name, pattern.text, capability.value));
        }
      }
      rules := rules + [Rule(pattern, capabilities)];
    }
    return Ok(Policy(raw.name, rules));
  }

  method BuildIdentity(raw: RawIdentity, policies: map<string, Policy>) returns (r: Result<Identity, PolicyError>)
    ensures r == LoadIdentity(raw, policies)
  {
    var kind := ParseKind(raw.kind);
    if kind.None? {
      return Err(UnknownIdentityKind(raw.name, raw.kind));
    }
    var seen: set<string> := {};
    assert raw.policies[0..] == raw.policies;
    for i := 0 to |raw.policies|
      invariant CheckReferences(raw.name, raw.policies, policies, {})
             == CheckReferences(raw.name, raw.policies[i..], policies, seen)
    {
      assert raw.policies[i..][1..] == raw.policies[i + 1..];
      if raw.policies[i] !in policies {
        return Err(UnknownPolicy(raw.name, raw.policies[i]));
      }
      if raw.policies[i] in seen {
        return Err(DuplicatePolicyReference(raw.name, raw.policies[i]));
      }
      seen := seen + {raw.policies[i]};
    }
    return Ok(Identity(raw.name, kind.value, raw.policies));
  }

  method FromToml(u: Unicode, raw: RawConfig) returns (r: Result<PolicySet, PolicyError>)
    ensures r == LoadConfig(u, raw)
  {
    var policies: map<string, Policy> := map[];
    assert raw.policies[0..] == raw.policies;
    for i := 0 to |raw.policies|
      invariant LoadPolicies(u, raw.policies, map[]) == LoadPolicies(u, raw.policies[i..], policies)
    {
      assert raw.policies[i..][1..] == raw.policies[i + 1..];
      var policy :- BuildPolicy(u, raw.policies[i]);
      if policy.name in policies {
        return Err(DuplicatePolicy(policy.name));
      }
      policies := policies[policy.name := policy];
    }
    var identities: map<string, Identity> := map[];
    assert raw.identities[0..] == raw.identities;
    for i := 0 to |raw.identities|
      invariant LoadIdentities(raw.identities, policies, map[])
             == LoadIdentities(raw.identities[i..], policies, identities)
    {
      assert raw.identities[i..][1..] == raw.identities[i + 1..];
      var identity :- BuildIdentity(raw.identities[i], policies);
      if identity.name in identities {
        return Err(DuplicateIdentity(identity.name));
      }
      identities := identities[identity.name := identity];
    }
    return Ok(PolicySet(identities, policies));
  }

  // ----- which files load

  function Granted(names: seq<string>): set<Capability> {
    set name | name in names && ParseCapability(name).Some? :: ParseCapability(name).value
  }

  predicate CapabilityFits(pattern: PathPattern, name: string) {
    && ParseCapability(name).Some?
    && (pattern.NamesReservedPrefix() ==> ParseCapability(name).value.IsControlPlane())
  }

  /** The rule that a written rule stands for. */
  predicate StandsFor(u: Unicode, raw: RawRule, rule: Rule) {
    ParsePattern(u, raw.path) == Ok(rule.pattern) && rule.capabilities == Granted(raw.capabilities)
  }

  ghost predicate RuleAcceptable(u: Unicode, raw: RawRule) {
    && ParsePattern(u, raw.path).Ok?
    && Distinct(raw.capabilities)
    && forall name :: name in raw.capabilities ==> CapabilityFits(ParsePattern(u, raw.path).value, name)
  }

  function Patterns(u: Unicode, raw: seq<RawRule>): seq<Result<PathPattern, PatternError>> {
    Map((rule: RawRule) => ParsePattern(u, rule.path), raw)
  }

  ghost predicate PolicyAcceptable(u: Unicode, raw: RawPolicy) {
    && (forall rule :: rule in raw.rules ==> RuleAcceptable(u, rule))
    && Distinct(Patterns(u, raw.rules))
  }

  ghost predicate IdentityAcceptable(raw: RawIdentity, policies: seq<string>) {
    && ParseKind(raw.kind).Some?
    && Distinct(raw.policies)
    && forall name :: name in raw.policies ==> name in policies
  }

  function PolicyNames(raw: seq<RawPolicy>): (names: seq<string>)
    ensures |names| == |raw| && forall i :: 0 <= i < |raw| ==> names[i] == raw[i].name
  {
    Map((policy: RawPolicy) => policy.name, raw)
  }

  function IdentityNames(raw: seq<RawIdentity>): (names: seq<string>)
    ensures |names| == |raw| && forall i :: 0 <= i < |raw| ==> names[i] == raw[i].name
  {
    Map((identity: RawIdentity) => identity.name, raw)
  }

  /** Every rule of the file format that is more than syntax, independent of any order. */
  ghost predicate Acceptable(u: Unicode, raw: RawConfig) {
    && (forall policy :: policy in raw.policies ==> PolicyAcceptable(u, policy))
    && Distinct(PolicyNames(raw.policies))
    && (forall identity :: identity in raw.identities ==> IdentityAcceptable(identity, PolicyNames(raw.policies)))
    && Distinct(IdentityNames(raw.identities))
  }

  /** Names that fit the pattern and stand for nothing seen so far. */
  ghost predicate NewNames(pattern: PathPattern, names: seq<string>, seen: set<Capability>) {
    forall name :: name in names ==> CapabilityFits(pattern, name) && ParseCapability(name).value !in seen
  }

  lemma OneMoreName(pattern: PathPattern, name: string, rest: seq<string>, seen: set<Capability>, c: Capability)
    requires ParseCapability(name) == Some(c)
    ensures Distinct([name] + rest) && NewNames(pattern, [name] + rest, seen) <==>
              && CapabilityFits(pattern, name) && c !in seen
              && Distinct(rest) && NewNames(pattern, rest, seen + {c})
    ensures Granted([name] + rest) == {c} + Granted(rest)
  {
    DistinctStep(name, rest);
    assert forall other :: other in [name] + rest <==> other == name || other in rest;
    assert forall other :: ParseCapability(other) == Some(c) ==> other == c.Label() == name;
  }

  lemma {:induction false} CapabilitiesLoadIff(
      policy: string, pattern: PathPattern, names: seq<string>, seen: set<Capability>)
    ensures var r := LoadCapabilities(policy, pattern, names, seen);
            && (r.Ok? <==> Distinct(names) && NewNames(pattern, names, seen))
            && (r.Ok? ==> r.value == seen + Granted(names))
    decreases |names|
  {
    if names != [] {
      var name, rest := names[0], names[1..];
      assert names == [name] + rest && name in names;
      if ParseCapability(name).Some? {
        var capability := ParseCapability(name).value;
        CapabilitiesLoadIff(policy, pattern, rest, seen + {capability});
        OneMoreName(pattern, name, rest, seen, capability);
      }
    }
  }

  ghost predicate NoClash(u: Unicode, raw: seq<RawRule>, rules: seq<Rule>) {
    forall rule :: rule in raw && ParsePattern(u, rule.path).Ok? ==> !HasPattern(rules, ParsePattern(u, rule.path).value)
  }

  lemma NoClashStep(u: Unicode, raw: seq<RawRule>, rules: seq<Rule>, rule: Rule)
    ensures NoClash(u, raw, rules + [rule]) <==> NoClash(u, raw, rules) && Ok(rule.pattern) !in Patterns(u, raw)
  {
    AddedPattern(rules, rule);
    PatternsOf(u, raw);
  }

  /** One round of the loop over the rules, for a rule whose pattern parses. */
  lemma LoadRulesStep(u: Unicode, policy: string, raw: seq<RawRule>, rules: seq<Rule>, rule: Rule)
    requires raw != [] && StandsFor(u, raw[0], rule)
    ensures LoadRules(u, policy, raw, rules).Ok? <==>
              && !HasPattern(rules, rule.pattern)
              && RuleAcceptable(u, raw[0])
              && LoadRules(u, policy, raw[1..], rules + [rule]).Ok?
    ensures LoadRules(u, policy, raw, rules).Ok? ==>
              LoadRules(u, policy, raw, rules) == LoadRules(u, policy, raw[1..], rules + [rule])
  {
    CapabilitiesLoadIff(policy, rule.pattern, raw[0].capabilities, {});
    var capabilities := LoadCapabilities(policy, rule.pattern, raw[0].capabilities, {});
    assert capabilities.Ok? <==> RuleAcceptable(u, raw[0]);
    if capabilities.Ok? {
      assert Rule(rule.pattern, capabilities.value) == rule;
    }
  }

  lemma {:induction false} RulesLoadIff(u: Unicode, policy: string, raw: seq<RawRule>, rules: seq<Rule>)
    ensures LoadRules(u, policy, raw, rules).Ok? <==>
              && (forall rule :: rule in raw ==> RuleAcceptable(u, rule))
              && Distinct(Patterns(u, raw))
              && NoClash(u, raw, rules)
  {
    if raw != [] {
      var first, rest := raw[0], raw[1..];
      assert raw == [first] + rest;
      assert forall rule :: rule in raw <==> rule == first || rule in rest;
      assert Patterns(u, raw) == [ParsePattern(u, first.path)] + Patterns(u, rest);
      DistinctStep(ParsePattern(u, first.path), Patterns(u, rest));
      if ParsePattern(u, first.path).Ok? {
        var rule := Rule(ParsePattern(u, first.path).value, Granted(first.capabilities));
        LoadRulesStep(u, policy, raw, rules, rule);
        RulesLoadIff(u, policy, rest, rules + [rule]);
        NoClashStep(u, rest, rules, rule);
        assert NoClash(u, raw, rules) <==> !HasPattern(rules, rule.pattern) && NoClash(u, rest, rules);
      } else {
        assert !RuleAcceptable(u, first);
      }
    }
  }

  /** Every rule stands for the written rule at its place. */
  predicate AllStandFor(u: Unicode, raw: seq<RawRule>, rules: seq<Rule>) {
    |raw| == |rules| && forall i :: 0 <= i < |raw| ==> StandsFor(u, raw[i], rules[i])
  }

  lemma OneMoreStands(u: Unicode, raw: seq<RawRule>, rule: Rule, rest: seq<Rule>)
    requires raw != [] && StandsFor(u, raw[0], rule) && AllStandFor(u, raw[1..], rest)
    ensures AllStandFor(u, raw, [rule] + rest)
  {
    forall i | 0 <= i < |raw| ensures StandsFor(u, raw[i], ([rule] + rest)[i]) {
      assert i > 0 ==> StandsFor(u, raw[1..][i - 1], rest[i - 1]);
    }
  }

  lemma {:induction false} LoadedRules(u: Unicode, policy: string, raw: seq<RawRule>, rules: seq<Rule>)
    returns (loaded: seq<Rule>)
    requires LoadRules(u, policy, raw, rules).Ok?
    ensures LoadRules(u, policy, raw, rules) == Ok(rules + loaded) && AllStandFor(u, raw, loaded)
    decreases |raw|
  {
    if raw == [] {
      loaded := [];
      assert rules + [] == rules;
    } else {
      var rule := Rule(ParsePattern(u, raw[0].path).value, Granted(raw[0].capabilities));
      LoadRulesStep(u, policy, raw, rules, rule);
      var rest := LoadedRules(u, policy, raw[1..], rules + [rule]);
      loaded := [rule] + rest;
      OneMoreStands(u, raw, rule, rest);
      Regroup(rules, [rule], rest);
    }
  }

  lemma PolicyLoadsIff(u: Unicode, raw: RawPolicy)
    ensures LoadPolicy(u, raw).Ok? <==> PolicyAcceptable(u, raw)
    ensures LoadPolicy(u, raw).Ok? ==>
              LoadPolicy(u, raw).value.name == raw.name && AllStandFor(u, raw.rules, LoadPolicy(u, raw).value.rules)
  {
    RulesLoadIff(u, raw.name, raw.rules, []);
    assert NoClash(u, raw.rules, []);
    if LoadPolicy(u, raw).Ok? {
      var loaded := LoadedRules(u, raw.name, raw.rules, []);
      assert [] + loaded == loaded;
    }
  }

  /** Acceptable policies whose names are not taken. */
  ghost predicate NewPolicies(u: Unicode, raw: seq<RawPolicy>, policies: map<string, Policy>) {
    forall policy :: policy in raw ==> PolicyAcceptable(u, policy) && policy.name !in policies
  }

  lemma OneMoreAcceptable(
      u: Unicode, first: RawPolicy, rest: seq<RawPolicy>, policies: map<string, Policy>, loaded: Policy)
    ensures Distinct(PolicyNames([first] + rest)) && NewPolicies(u, [first] + rest, policies) <==>
              && PolicyAcceptable(u, first) && first.name !in policies
              && Distinct(PolicyNames(rest)) && NewPolicies(u, rest, policies[first.name := loaded])
  {
    assert forall policy :: policy in [first] + rest <==> policy == first || policy in rest;
    assert PolicyNames([first] + rest) == [first.name] + PolicyNames(rest);
    DistinctStep(first.name, PolicyNames(rest));
    NamesOfPolicies(rest);
  }

  lemma {:induction false} PoliciesLoadIff(u: Unicode, raw: seq<RawPolicy>, policies: map<string, Policy>)
    ensures LoadPolicies(u, raw, policies).Ok? <==> NewPolicies(u, raw, policies) && Distinct(PolicyNames(raw))
    decreases |raw|
  {
    if raw != [] {
      var first, rest := raw[0], raw[1..];
      assert raw == [first] + rest;
      PolicyLoadsIff(u, first);
      if LoadPolicy(u, first).Ok? {
        var loaded := LoadPolicy(u, first).value;
        PoliciesLoadIff(u, rest, policies[first.name := loaded]);
        OneMoreAcceptable(u, first, rest, policies, loaded);
      } else {
        assert first in raw && !PolicyAcceptable(u, first);
      }
    }
  }

  lemma NamesOfPolicies(raw: seq<RawPolicy>)
    ensures forall name :: name in PolicyNames(raw) <==> exists policy :: policy in raw && policy.name == name
  {
    forall name | name in PolicyNames(raw) ensures exists policy :: policy in raw && policy.name == name {
      var i :| 0 <= i < |raw| && PolicyNames(raw)[i] == name;
      assert raw[i] in raw && raw[i].name == name;
    }
    forall policy | policy in raw ensures policy.name in PolicyNames(raw) {
      var i :| 0 <= i < |raw| && raw[i] == policy;
      assert PolicyNames(raw)[i] == policy.name;
    }
  }

  /** `after` is `before` and one policy under its name for each written one. */
  ghost predicate AddsPolicies(u: Unicode, raw: seq<RawPolicy>, before: map<string, Policy>, after: map<string, Policy>) {
    && (forall name :: name in after <==> name in before || name in PolicyNames(raw))
    && (forall name :: name in before ==> after[name] == before[name])
    && forall policy :: policy in raw ==> policy.name in after && LoadPolicy(u, policy) == Ok(after[policy.name])
  }

  lemma OneMorePolicy(
      u: Unicode, first: RawPolicy, rest: seq<RawPolicy>, before: map<string, Policy>, after: map<string, Policy>)
    requires LoadPolicy(u, first).Ok? && first.name !in before
    requires AddsPolicies(u, rest, before[first.name := LoadPolicy(u, first).value], after)
    ensures AddsPolicies(u, [first] + rest, before, after)
  {
    var more := before[first.name := LoadPolicy(u, first).value];
    assert first.name in more && after[first.name] == more[first.name];
    assert PolicyNames([first] + rest) == [first.name] + PolicyNames(rest);
    forall name | name in before ensures after[name] == before[name] {
      assert name in more && more[name] == before[name];
    }
  }

  lemma {:induction false} LoadedPolicies(u: Unicode, raw: seq<RawPolicy>, policies: map<string, Policy>)
    requires LoadPolicies(u, raw, policies).Ok?
    ensures AddsPolicies(u, raw, policies, LoadPolicies(u, raw, policies).value)
    decreases |raw|
  {
    if raw != [] {
      var first, rest := raw[0], raw[1..];
      assert raw == [first] + rest;
      var more := policies[first.name := LoadPolicy(u, first).value];
      LoadedPolicies(u, rest, more);
      OneMorePolicy(u, first, rest, policies, LoadPolicies(u, rest, more).value);
    }
  }

  lemma {:induction false} ReferencesHoldIff(
      identity: string, names: seq<string>, policies: map<string, Policy>, seen: set<string>)
    ensures CheckReferences(identity, names, policies, seen).None? <==>
              && Distinct(names)
              && forall name :: name in names ==> name in policies && name !in seen
  {
    if names != [] {
      assert names == [names[0]] + names[1..];
      DistinctStep(names[0], names[1..]);
      ReferencesHoldIff(identity, names[1..], policies, seen + {names[0]});
      assert forall name :: name in names <==> name == names[0] || name in names[1..];
    }
  }

  lemma IdentityLoadsIff(raw: RawIdentity, policies: map<string, Policy>, names: seq<string>)
    requires forall name :: name in names <==> name in policies
    ensures LoadIdentity(raw, policies).Ok? <==> IdentityAcceptable(raw, names)
    ensures LoadIdentity(raw, policies).Ok? ==>
              LoadIdentity(raw, policies).value == Identity(raw.name, ParseKind(raw.kind).value, raw.policies)
  {
    ReferencesHoldIff(raw.name, raw.policies, policies, {});
  }

  lemma {:induction false} IdentitiesLoadIff(
    raw: seq<RawIdentity>, policies: map<string, Policy>, names: seq<string>, identities: map<string, Identity>)
    requires forall name :: name in names <==> name in policies
    ensures LoadIdentities(raw, policies, identities).Ok? <==>
              && (forall identity :: identity in raw ==>
                    IdentityAcceptable(identity, names) && identity.name !in identities)
              && Distinct(IdentityNames(raw))
  {
    if raw != [] {
      var first, rest := raw[0], raw[1..];
      assert raw == [first] + rest;
      assert forall identity :: identity in raw <==> identity == first || identity in rest;
      assert IdentityNames(raw) == [first.name] + IdentityNames(rest);
      DistinctStep(first.name, IdentityNames(rest));
      NamesOfIdentities(rest);
      IdentityLoadsIff(first, policies, names);
      if LoadIdentity(first, policies).Ok? {
        IdentitiesLoadIff(rest, policies, names, identities[first.name := LoadIdentity(first, policies).value]);
      }
    }
  }

  lemma NamesOfIdentities(raw: seq<RawIdentity>)
    ensures forall name :: name in IdentityNames(raw) <==> exists identity :: identity in raw && identity.name == name
  {
    forall name | name in IdentityNames(raw) ensures exists identity :: identity in raw && identity.name == name {
      var i :| 0 <= i < |raw| && IdentityNames(raw)[i] == name;
      assert raw[i] in raw && raw[i].name == name;
    }
    forall identity | identity in raw ensures identity.name in IdentityNames(raw) {
      var i :| 0 <= i < |raw| && raw[i] == identity;
      assert IdentityNames(raw)[i] == identity.name;
    }
  }

  ghost predicate AddsIdentities(raw: seq<RawIdentity>, before: map<string, Identity>, after: map<string, Identity>) {
    && (forall name :: name in after <==> name in before || name in IdentityNames(raw))
    && (forall name :: name in before ==> after[name] == before[name])
    && forall identity :: identity in raw ==>
         && identity.name in after && ParseKind(identity.kind).Some?
         && after[identity.name] == Identity(identity.name, ParseKind(identity.kind).value, identity.policies)
  }

  lemma OneMoreIdentity(
    first: RawIdentity, loaded: Identity, rest: seq<RawIdentity>, before: map<string, Identity>, after: map<string, Identity>)
    requires ParseKind(first.kind).Some? && first.name !in before
    requires loaded == Identity(first.name, ParseKind(first.kind).value, first.policies)
    requires AddsIdentities(rest, before[first.name := loaded], after)
    ensures AddsIdentities([first] + rest, before, after)
  {
    var more := before[first.name := loaded];
    assert first.name in more && after[first.name] == more[first.name];
    assert IdentityNames([first] + rest) == [first.name] + IdentityNames(rest);
    forall name | name in before ensures after[name] == before[name] {
      assert name in more && more[name] == before[name];
    }
  }

  lemma {:induction false} LoadedIdentities(
      raw: seq<RawIdentity>, policies: map<string, Policy>, identities: map<string, Identity>)
    requires LoadIdentities(raw, policies, identities).Ok?
    ensures AddsIdentities(raw, identities, LoadIdentities(raw, policies, identities).value)
    decreases |raw|
  {
    if raw != [] {
      var first, rest := raw[0], raw[1..];
      assert raw == [first] + rest;
      var loaded := LoadIdentity(first, policies).value;
      var more := identities[first.name := loaded];
      LoadedIdentities(rest, policies, more);
      OneMoreIdentity(first, loaded, rest, identities, LoadIdentities(rest, policies, more).value);
    }
  }

  /** The file loads exactly when it is acceptable, whatever order it is written in. */
  lemma LoadsIffAcceptable(u: Unicode, raw: RawConfig)
    ensures LoadConfig(u, raw).Ok? <==> Acceptable(u, raw)
  {
    PoliciesLoadIff(u, raw.policies, map[]);
    if LoadPolicies(u, raw.policies, map[]).Ok? {
      LoadedPolicies(u, raw.policies, map[]);
      IdentitiesLoadIff(raw.identities, LoadPolicies(u, raw.policies, map[]).value, PolicyNames(raw.policies), map[]);
    }
  }

  lemma AddedPattern(rules: seq<Rule>, rule: Rule)
    ensures forall pattern :: HasPattern(rules + [rule], pattern) <==> HasPattern(rules, pattern) || pattern == rule.pattern
  {
    forall pattern ensures HasPattern(rules + [rule], pattern) <==> HasPattern(rules, pattern) || pattern == rule.pattern {
      var more := rules + [rule];
      assert more[|rules|] == rule;
      if i :| 0 <= i < |rules| && rules[i].pattern == pattern {
        assert more[i].pattern == pattern;
      }
    }
  }

  lemma PatternsOf(u: Unicode, raw: seq<RawRule>)
    ensures forall p :: p in Patterns(u, raw) <==> exists rule :: rule in raw && ParsePattern(u, rule.path) == p
  {
    forall p | p in Patterns(u, raw) ensures exists rule :: rule in raw && ParsePattern(u, rule.path) == p {
      var i :| 0 <= i < |raw| && Patterns(u, raw)[i] == p;
      assert raw[i] in raw && ParsePattern(u, raw[i].path) == p;
    }
    forall rule | rule in raw ensures ParsePattern(u, rule.path) in Patterns(u, raw) {
      var i :| 0 <= i < |raw| && raw[i] == rule;
      assert Patterns(u, raw)[i] == ParsePattern(u, rule.path);
    }
  }
}
