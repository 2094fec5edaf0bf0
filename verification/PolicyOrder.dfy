/** The order in which a policy file is written does not matter to the loader (crates/ciphr-policy/src/model.rs). */
module PolicyOrder {
  import opened Basics
  import opened Path
  import opened Pattern
  import opened Policy

  // A list, read without its order.
  datatype RuleKey = RuleKey(path: string, capabilities: multiset<string>)
  datatype PolicyKey = PolicyKey(name: string, rules: multiset<RuleKey>)
  datatype IdentityKey = IdentityKey(name: string, kind: string, policies: multiset<string>)

  function KeyOfRule(rule: RawRule): RuleKey {
    RuleKey(rule.path, multiset(rule.capabilities))
  }

  function KeyOfPolicy(policy: RawPolicy): PolicyKey {
    PolicyKey(policy.name, multiset(Map(KeyOfRule, policy.rules)))
  }

  function KeyOfIdentity(identity: RawIdentity): IdentityKey {
    IdentityKey(identity.name, identity.kind, multiset(identity.policies))
  }

  /** The same file with any of its lists written in another order. */
  ghost predicate Reordered(a: RawConfig, b: RawConfig) {
    && multiset(Map(KeyOfPolicy, a.policies)) == multiset(Map(KeyOfPolicy, b.policies))
    && multiset(Map(KeyOfIdentity, a.identities)) == multiset(Map(KeyOfIdentity, b.identities))
  }

  ghost predicate SamePolicies(s: map<string, Policy>, t: map<string, Policy>) {
    && (forall name :: name in s <==> name in t)
    && forall name :: name in s ==> s[name].name == t[name].name && SameMembers(s[name].rules, t[name].rules)
  }

  ghost predicate SameIdentities(s: map<string, Identity>, t: map<string, Identity>) {
    && (forall name :: name in s <==> name in t)
    && forall name :: name in s ==> s[name].kind == t[name].kind && SameMembers(s[name].policies, t[name].policies)
  }

  /** Loaded sets that differ at most in the order of rules and of attached policies. */
  ghost predicate SameContents(s: PolicySet, t: PolicySet) {
    SamePolicies(s.policies, t.policies) && SameIdentities(s.identities, t.identities)
  }

  // ----- rules

  lemma SameRule(u: Unicode, a: RawRule, b: RawRule)
    requires KeyOfRule(a) == KeyOfRule(b)
    ensures a.path == b.path && Granted(a.capabilities) == Granted(b.capabilities)
    ensures RuleAcceptable(u, a) <==> RuleAcceptable(u, b)
  {
    DistinctPermutes(a.capabilities, b.capabilities);
  }

  lemma RulesAcceptedTogether(u: Unicode, a: seq<RawRule>, b: seq<RawRule>)
    requires multiset(Map(KeyOfRule, a)) == multiset(Map(KeyOfRule, b))
    requires forall rule :: rule in a ==> RuleAcceptable(u, rule)
    ensures forall rule :: rule in b ==> RuleAcceptable(u, rule)
  {
    forall rule | rule in b ensures RuleAcceptable(u, rule) {
      var partner := Partner(KeyOfRule, b, a, rule);
      SameRule(u, partner, rule);
    }
  }

  lemma PatternsPermute(u: Unicode, a: seq<RawRule>, b: seq<RawRule>)
    requires multiset(Map(KeyOfRule, a)) == multiset(Map(KeyOfRule, b))
    ensures multiset(Patterns(u, a)) == multiset(Patterns(u, b))
  {
    var parse := (key: RuleKey) => ParsePattern(u, key.path);
    MapPermutes(parse, Map(KeyOfRule, a), Map(KeyOfRule, b));
    assert Patterns(u, a) == Map(parse, Map(KeyOfRule, a));
    assert Patterns(u, b) == Map(parse, Map(KeyOfRule, b));
  }

  lemma RuleHasPartner(u: Unicode, a: seq<RawRule>, b: seq<RawRule>, loadedA: seq<Rule>, loadedB: seq<Rule>, i: nat)
    requires multiset(Map(KeyOfRule, a)) == multiset(Map(KeyOfRule, b))
    requires AllStandFor(u, a, loadedA) && AllStandFor(u, b, loadedB) && i < |a|
    ensures loadedA[i] in loadedB
  {
    assert StandsFor(u, a[i], loadedA[i]);
    var partner := Partner(KeyOfRule, a, b, a[i]);
    SameRule(u, partner, a[i]);
    var j :| 0 <= j < |b| && b[j] == partner;
    assert StandsFor(u, b[j], loadedB[j]);
    assert loadedB[j] == loadedA[i];
  }

  lemma LoadedRulesMatch(u: Unicode, a: RawPolicy, b: RawPolicy)
    requires multiset(Map(KeyOfRule, a.rules)) == multiset(Map(KeyOfRule, b.rules))
    requires LoadPolicy(u, a).Ok? && LoadPolicy(u, b).Ok?
    ensures forall rule :: rule in LoadPolicy(u, a).value.rules ==> rule in LoadPolicy(u, b).value.rules
  {
    PolicyLoadsIff(u, a);
    PolicyLoadsIff(u, b);
    var loadedA, loadedB := LoadPolicy(u, a).value.rules, LoadPolicy(u, b).value.rules;
    forall rule | rule in loadedA ensures rule in loadedB {
      var i :| 0 <= i < |loadedA| && loadedA[i] == rule;
      RuleHasPartner(u, a.rules, b.rules, loadedA, loadedB, i);
    }
  }

  lemma SamePolicy(u: Unicode, a: RawPolicy, b: RawPolicy)
    requires KeyOfPolicy(a) == KeyOfPolicy(b)
    ensures LoadPolicy(u, a).Ok? <==> LoadPolicy(u, b).Ok?
    ensures LoadPolicy(u, a).Ok? ==>
              && LoadPolicy(u, a).value.name == LoadPolicy(u, b).value.name
              && SameMembers(LoadPolicy(u, a).value.rules, LoadPolicy(u, b).value.rules)
  {
    PolicyLoadsIff(u, a);
    PolicyLoadsIff(u, b);
    PatternsPermute(u, a.rules, b.rules);
    DistinctPermutes(Patterns(u, a.rules), Patterns(u, b.rules));
    if PolicyAcceptable(u, a) {
      RulesAcceptedTogether(u, a.rules, b.rules);
    }
    if PolicyAcceptable(u, b) {
      RulesAcceptedTogether(u, b.rules, a.rules);
    }
    if LoadPolicy(u, a).Ok? {
      LoadedRulesMatch(u, a, b);
      LoadedRulesMatch(u, b, a);
    }
  }

  // ----- policies and identities

  function NameOfPolicy(key: PolicyKey): string {
    key.name
  }

  function NameOfIdentity(key: IdentityKey): string {
    key.name
  }

  lemma PolicyNamesOfKeys(raw: seq<RawPolicy>)
    ensures PolicyNames(raw) == Map(NameOfPolicy, Map(KeyOfPolicy, raw))
  {
  }

  lemma IdentityNamesOfKeys(raw: seq<RawIdentity>)
    ensures IdentityNames(raw) == Map(NameOfIdentity, Map(KeyOfIdentity, raw))
  {
  }

  lemma NamesPermute(a: RawConfig, b: RawConfig)
    requires Reordered(a, b)
    ensures multiset(PolicyNames(a.policies)) == multiset(PolicyNames(b.policies))
    ensures multiset(IdentityNames(a.identities)) == multiset(IdentityNames(b.identities))
  {
    PolicyNamesOfKeys(a.policies);
    PolicyNamesOfKeys(b.policies);
    MapPermutes(NameOfPolicy, Map(KeyOfPolicy, a.policies), Map(KeyOfPolicy, b.policies));
    IdentityNamesOfKeys(a.identities);
    IdentityNamesOfKeys(b.identities);
    MapPermutes(NameOfIdentity, Map(KeyOfIdentity, a.identities), Map(KeyOfIdentity, b.identities));
  }

  lemma AcceptableTogether(u: Unicode, a: RawConfig, b: RawConfig)
    requires Reordered(a, b) && Acceptable(u, a)
    ensures Acceptable(u, b)
  {
    NamesPermute(a, b);
    DistinctPermutes(PolicyNames(a.policies), PolicyNames(b.policies));
    DistinctPermutes(IdentityNames(a.identities), IdentityNames(b.identities));
    forall policy | policy in b.policies ensures PolicyAcceptable(u, policy) {
      var partner := Partner(KeyOfPolicy, b.policies, a.policies, policy);
      SamePolicy(u, partner, policy);
      PolicyLoadsIff(u, partner);
      PolicyLoadsIff(u, policy);
    }
    forall identity | identity in b.identities
      ensures IdentityAcceptable(identity, PolicyNames(b.policies))
    {
      var partner := Partner(KeyOfIdentity, b.identities, a.identities, identity);
      DistinctPermutes(partner.policies, identity.policies);
    }
  }

  lemma PolicyNamed(u: Unicode, raw: seq<RawPolicy>, loaded: map<string, Policy>)
    requires LoadPolicies(u, raw, map[]) == Ok(loaded)
    ensures forall name :: name in loaded <==> name in PolicyNames(raw)
    ensures forall policy :: policy in raw ==> policy.name in loaded && LoadPolicy(u, policy) == Ok(loaded[policy.name])
  {
    LoadedPolicies(u, raw, map[]);
  }

  lemma LoadedPolicyMatches(
      u: Unicode, a: RawConfig, b: RawConfig, s: map<string, Policy>, t: map<string, Policy>, name: string)
    requires Reordered(a, b) && name in s && name in t
    requires LoadPolicies(u, a.policies, map[]) == Ok(s) && LoadPolicies(u, b.policies, map[]) == Ok(t)
    ensures s[name].name == t[name].name && SameMembers(s[name].rules, t[name].rules)
  {
    PolicyNamed(u, a.policies, s);
    PolicyNamed(u, b.policies, t);
    NamesOfPolicies(a.policies);
    var policy :| policy in a.policies && policy.name == name;
    var partner := Partner(KeyOfPolicy, a.policies, b.policies, policy);
    SamePolicy(u, policy, partner);
  }

  lemma IdentityNamed(raw: seq<RawIdentity>, policies: map<string, Policy>, loaded: map<string, Identity>)
    requires LoadIdentities(raw, policies, map[]) == Ok(loaded)
    ensures forall name :: name in loaded <==> name in IdentityNames(raw)
    ensures forall identity :: identity in raw ==>
              && identity.name in loaded && ParseKind(identity.kind).Some?
              && loaded[identity.name] == Identity(identity.name, ParseKind(identity.kind).value, identity.policies)
  {
    LoadedIdentities(raw, policies, map[]);
  }

  lemma LoadedIdentityMatches(
    a: RawConfig, b: RawConfig, policiesA: map<string, Policy>, policiesB: map<string, Policy>,
    s: map<string, Identity>, t: map<string, Identity>, name: string)
    requires Reordered(a, b) && name in s && name in t
    requires LoadIdentities(a.identities, policiesA, map[]) == Ok(s)
    requires LoadIdentities(b.identities, policiesB, map[]) == Ok(t)
    ensures s[name].kind == t[name].kind && SameMembers(s[name].policies, t[name].policies)
  {
    IdentityNamed(a.identities, policiesA, s);
    IdentityNamed(b.identities, policiesB, t);
    NamesOfIdentities(a.identities);
    var identity :| identity in a.identities && identity.name == name;
    var partner := Partner(KeyOfIdentity, a.identities, b.identities, identity);
    DistinctPermutes(identity.policies, partner.policies);
  }

  lemma LoadedPoliciesMatch(u: Unicode, a: RawConfig, b: RawConfig, s: map<string, Policy>, t: map<string, Policy>)
    requires Reordered(a, b)
    requires LoadPolicies(u, a.policies, map[]) == Ok(s) && LoadPolicies(u, b.policies, map[]) == Ok(t)
    ensures SamePolicies(s, t)
  {
    NamesPermute(a, b);
    DistinctPermutes(PolicyNames(a.policies), PolicyNames(b.policies));
    PolicyNamed(u, a.policies, s);
    PolicyNamed(u, b.policies, t);
    forall name | name in s ensures s[name].name == t[name].name && SameMembers(s[name].rules, t[name].rules) {
      LoadedPolicyMatches(u, a, b, s, t, name);
    }
  }

  lemma LoadedIdentitiesMatch(
    a: RawConfig, b: RawConfig, policiesA: map<string, Policy>, policiesB: map<string, Policy>,
    s: map<string, Identity>, t: map<string, Identity>)
    requires Reordered(a, b)
    requires LoadIdentities(a.identities, policiesA, map[]) == Ok(s)
    requires LoadIdentities(b.identities, policiesB, map[]) == Ok(t)
    ensures SameIdentities(s, t)
  {
    NamesPermute(a, b);
    DistinctPermutes(IdentityNames(a.identities), IdentityNames(b.identities));
    IdentityNamed(a.identities, policiesA, s);
    IdentityNamed(b.identities, policiesB, t);
    forall name | name in s ensures s[name].kind == t[name].kind && SameMembers(s[name].policies, t[name].policies) {
      LoadedIdentityMatches(a, b, policiesA, policiesB, s, t, name);
    }
  }

  /** Reordering a file neither breaks nor repairs it, and loads the same contents. */
  lemma LoadIgnoresOrder(u: Unicode, a: RawConfig, b: RawConfig)
    requires Reordered(a, b)
    ensures LoadConfig(u, a).Ok? <==> LoadConfig(u, b).Ok?
    ensures LoadConfig(u, a).Ok? ==> SameContents(LoadConfig(u, a).value, LoadConfig(u, b).value)
  {
    LoadsIffAcceptable(u, a);
    LoadsIffAcceptable(u, b);
    if Acceptable(u, a) {
      AcceptableTogether(u, a, b);
      var s, t := LoadConfig(u, a).value, LoadConfig(u, b).value;
      LoadedPoliciesMatch(u, a, b, s.policies, t.policies);
      LoadedIdentitiesMatch(a, b, s.policies, t.policies, s.identities, t.identities);
    }
    if Acceptable(u, b) {
      AcceptableTogether(u, b, a);
    }
  }
}
