/** A policy file that is refused has the fault that the error names (crates/ciphr-policy/src/model.rs). */
module LoadErrors {
  import opened Basics
  import opened Path
  import opened Pattern
  import opened Policy
  import opened WrittenPolicy

  /** The text stands at two places. */
  predicate Repeats(texts: seq<string>, text: string) {
    exists i, j :: 0 <= i < j < |texts| && texts[i] == text && texts[j] == text
  }

  lemma RepeatsWith(before: seq<string>, text: string, after: seq<string>)
    requires text in before
    ensures Repeats(before + [text] + after, text)
  {
    var i :| 0 <= i < |before| && before[i] == text;
    var all := before + [text] + after;
    assert all[i] == text && all[|before|] == text;
  }

  // ----- within a rule

  /** The list of words has this fault. */
  ghost predicate WordFault(reserved: bool, words: seq<string>, e: PolicyError) {
    match e
    case BadCapability(_, _, found) => found in words && !IsWord(found)
    case DuplicateCapability(_, _, word) => Repeats(words, word)
    case SecretCapabilityOnControlPlane(_, _, c) =>
      reserved && exists word :: word in words && Writes(word, c) && word != "inspect" && word != "revoke"
    case _ => false
  }

  predicate NamesRule(policy: string, text: string, e: PolicyError) {
    match e
    case BadCapability(p, t, _) => p == policy && t == text
    case DuplicateCapability(p, t, _) => p == policy && t == text
    case SecretCapabilityOnControlPlane(p, t, _) => p == policy && t == text
    case _ => false
  }

  lemma {:induction false} WordErrorIsReal(
    policy: string, pattern: PathPattern, before: seq<string>, names: seq<string>, seen: set<Capability>)
    requires seen == Granted(before) && LoadCapabilities(policy, pattern, names, seen).Err?
    ensures var e := LoadCapabilities(policy, pattern, names, seen).error;
            NamesRule(policy, pattern.text, e) && WordFault(pattern.NamesReservedPrefix(), before + names, e)
    decreases |names|
  {
    var word, rest := names[0], names[1..];
    assert names == [word] + rest && before + names == before + [word] + rest;
    assert word in before + names;
    WordsAreParsed(word);
    if ParseCapability(word).Some? {
      var c := ParseCapability(word).value;
      GrantedIff(before, word, c);
      ControlPlaneWords(word, c);
      if c in seen {
        RepeatsWith(before, word, rest);
      } else if !(pattern.NamesReservedPrefix() && !c.IsControlPlane()) {
        GrantedGrows(before, word, c);
        WordErrorIsReal(policy, pattern, before + [word], rest, seen + {c});
      }
    }
  }

  lemma GrantedGrows(before: seq<string>, word: string, c: Capability)
    requires ParseCapability(word) == Some(c)
    ensures Granted(before + [word]) == Granted(before) + {c}
  {
  }

  // ----- within a policy

  /** The rules have this fault. */
  ghost predicate RuleFault(u: Unicode, policy: string, rules: seq<RawRule>, e: PolicyError) {
    match e
    case BadPattern(p, path, reason) =>
      p == policy && (exists rule :: rule in rules && rule.path == path) && ParsePattern(u, path) == Err(reason)
    case DuplicatePattern(p, text) => p == policy && Repeats(NormalTexts(u, rules), text)
    case _ =>
      exists rule :: rule in rules && NamesRule(policy, u.nfc(rule.path), e)
                     && WordFault(ReservedWritten(u, rule), rule.capabilities, e)
  }

  lemma NormalTextsOf(u: Unicode, before: seq<RawRule>, rule: RawRule, after: seq<RawRule>)
    ensures NormalTexts(u, before + [rule] + after) == NormalTexts(u, before) + [u.nfc(rule.path)] + NormalTexts(u, after)
  {
  }

  lemma TakenPattern(u: Unicode, before: seq<RawRule>, rules: seq<Rule>, rule: RawRule)
    requires AllStandFor(u, before, rules) && ParsePattern(u, rule.path).Ok?
    requires HasPattern(rules, ParsePattern(u, rule.path).value)
    ensures u.nfc(rule.path) in NormalTexts(u, before)
  {
    var i :| 0 <= i < |rules| && rules[i].pattern == ParsePattern(u, rule.path).value;
    assert StandsFor(u, before[i], rules[i]);
    assert NormalTexts(u, before)[i] == u.nfc(before[i].path) == u.nfc(rule.path);
  }

  lemma {:induction false} RuleErrorIsReal(
    u: Unicode, policy: string, before: seq<RawRule>, raw: seq<RawRule>, rules: seq<Rule>)
    requires u.Lawful() && AllStandFor(u, before, rules) && LoadRules(u, policy, raw, rules).Err?
    ensures RuleFault(u, policy, before + raw, LoadRules(u, policy, raw, rules).error)
    decreases |raw|, 1
  {
    var rule, rest := raw[0], raw[1..];
    assert raw == [rule] + rest && before + raw == before + [rule] + rest;
    assert rule in before + raw;
    if ParsePattern(u, rule.path).Ok? {
      var pattern := ParsePattern(u, rule.path).value;
      if HasPattern(rules, pattern) {
        TakenPattern(u, before, rules, rule);
        NormalTextsOf(u, before, rule, rest);
        RepeatsWith(NormalTexts(u, before), u.nfc(rule.path), NormalTexts(u, rest));
      } else {
        RuleOrRest(u, policy, before, rule, rest, rules, pattern);
      }
    }
  }

  lemma {:induction false} RuleOrRest(
    u: Unicode, policy: string, before: seq<RawRule>, rule: RawRule, rest: seq<RawRule>, rules: seq<Rule>,
    pattern: PathPattern)
    requires u.Lawful() && AllStandFor(u, before, rules) && ParsePattern(u, rule.path) == Ok(pattern)
    requires LoadRules(u, policy, [rule] + rest, rules).Err? && !HasPattern(rules, pattern)
    ensures RuleFault(u, policy, before + [rule] + rest, LoadRules(u, policy, [rule] + rest, rules).error)
    decreases |rest| + 1, 0
  {
    var capabilities := LoadCapabilities(policy, pattern, rule.capabilities, {});
    assert ([rule] + rest)[1..] == rest;
    if capabilities.Err? {
      assert Granted([]) == {} && [] + rule.capabilities == rule.capabilities;
      WordErrorIsReal(policy, pattern, [], rule.capabilities, {});
      ReservedIff(u, rule);
      assert rule in before + [rule] + rest;
    } else {
      var loaded := Rule(pattern, capabilities.value);
      CapabilitiesLoadIff(policy, pattern, rule.capabilities, {});
      OneMoreStandsLast(u, before, rules, rule, loaded);
      RuleErrorIsReal(u, policy, before + [rule], rest, rules + [loaded]);
    }
  }

  lemma OneMoreStandsLast(u: Unicode, before: seq<RawRule>, rules: seq<Rule>, rule: RawRule, loaded: Rule)
    requires AllStandFor(u, before, rules) && StandsFor(u, rule, loaded)
    ensures AllStandFor(u, before + [rule], rules + [loaded])
  {
    forall i | 0 <= i < |before| + 1 ensures StandsFor(u, (before + [rule])[i], (rules + [loaded])[i]) {
      assert i < |before| ==> StandsFor(u, before[i], rules[i]);
    }
  }

  lemma PolicyErrorIsReal(u: Unicode, policy: RawPolicy)
    requires u.Lawful() && LoadPolicy(u, policy).Err?
    ensures RuleFault(u, policy.name, policy.rules, LoadPolicy(u, policy).error)
  {
    RuleErrorIsReal(u, policy.name, [], policy.rules, []);
    assert [] + policy.rules == policy.rules;
  }

  // ----- the policies and identities of a file

  ghost predicate PolicyFault(u: Unicode, policies: seq<RawPolicy>, e: PolicyError) {
    match e
    case DuplicatePolicy(name) => Repeats(PolicyNames(policies), name)
    case _ => exists policy :: policy in policies && RuleFault(u, policy.name, policy.rules, e)
  }

  lemma PolicyNamesOf(before: seq<RawPolicy>, policy: RawPolicy, after: seq<RawPolicy>)
    ensures PolicyNames(before + [policy] + after) == PolicyNames(before) + [policy.name] + PolicyNames(after)
    ensures PolicyNames(before + [policy]) == PolicyNames(before) + [policy.name]
  {
  }

  lemma {:induction false} PoliciesErrorIsReal(
    u: Unicode, before: seq<RawPolicy>, raw: seq<RawPolicy>, policies: map<string, Policy>)
    requires u.Lawful() && LoadPolicies(u, raw, policies).Err?
    requires forall name :: name in policies <==> name in PolicyNames(before)
    ensures PolicyFault(u, before + raw, LoadPolicies(u, raw, policies).error)
    decreases |raw|
  {
    var policy, rest := raw[0], raw[1..];
    assert raw == [policy] + rest && before + raw == before + [policy] + rest;
    assert policy in before + raw;
    if LoadPolicy(u, policy).Err? {
      PolicyErrorIsReal(u, policy);
    } else {
      PolicyLoadsIff(u, policy);
      PolicyNamesOf(before, policy, rest);
      if policy.name in policies {
        RepeatsWith(PolicyNames(before), policy.name, PolicyNames(rest));
      } else {
        PoliciesErrorIsReal(u, before + [policy], rest, policies[policy.name := LoadPolicy(u, policy).value]);
      }
    }
  }

  /** The identity has this fault. */
  ghost predicate IdentityFault(identity: RawIdentity, policies: seq<string>, e: PolicyError) {
    match e
    case UnknownIdentityKind(name, kind) =>
      name == identity.name && kind == identity.kind && kind != "machine" && kind != "human"
    case UnknownPolicy(name, policy) => name == identity.name && policy in identity.policies && policy !in policies
    case DuplicatePolicyReference(name, policy) => name == identity.name && Repeats(identity.policies, policy)
    case _ => false
  }

  lemma {:induction false} ReferenceErrorIsReal(
    identity: RawIdentity, before: seq<string>, names: seq<string>, policies: map<string, Policy>, seen: set<string>,
    known: seq<string>)
    requires before + names == identity.policies && CheckReferences(identity.name, names, policies, seen).Some?
    requires forall name :: name in seen <==> name in before
    requires forall name :: name in policies <==> name in known
    ensures IdentityFault(identity, known, CheckReferences(identity.name, names, policies, seen).value)
    decreases |names|
  {
    var name, rest := names[0], names[1..];
    assert names == [name] + rest && identity.policies == before + [name] + rest;
    assert name in identity.policies;
    if name in policies {
      if name in seen {
        RepeatsWith(before, name, rest);
      } else {
        ReferenceErrorIsReal(identity, before + [name], rest, policies, seen + {name}, known);
      }
    }
  }

  lemma IdentityErrorIsReal(identity: RawIdentity, policies: map<string, Policy>, known: seq<string>)
    requires LoadIdentity(identity, policies).Err? && forall name :: name in policies <==> name in known
    ensures IdentityFault(identity, known, LoadIdentity(identity, policies).error)
  {
    if ParseKind(identity.kind).Some? {
      assert [] + identity.policies == identity.policies;
      ReferenceErrorIsReal(identity, [], identity.policies, policies, {}, known);
    }
  }

  ghost predicate IdentitiesFault(identities: seq<RawIdentity>, known: seq<string>, e: PolicyError) {
    match e
    case DuplicateIdentity(name) => Repeats(IdentityNames(identities), name)
    case _ => exists identity :: identity in identities && IdentityFault(identity, known, e)
  }

  lemma IdentityNamesOf(before: seq<RawIdentity>, identity: RawIdentity, after: seq<RawIdentity>)
    ensures IdentityNames(before + [identity] + after)
            == IdentityNames(before) + [identity.name] + IdentityNames(after)
    ensures IdentityNames(before + [identity]) == IdentityNames(before) + [identity.name]
  {
  }

  lemma {:induction false} IdentitiesErrorIsReal(
    before: seq<RawIdentity>, raw: seq<RawIdentity>, policies: map<string, Policy>, known: seq<string>,
    identities: map<string, Identity>)
    requires LoadIdentities(raw, policies, identities).Err?
    requires forall name :: name in policies <==> name in known
    requires forall name :: name in identities <==> name in IdentityNames(before)
    ensures IdentitiesFault(before + raw, known, LoadIdentities(raw, policies, identities).error)
    decreases |raw|
  {
    var identity, rest := raw[0], raw[1..];
    assert raw == [identity] + rest && before + raw == before + [identity] + rest;
    assert identity in before + raw;
    if LoadIdentity(identity, policies).Err? {
      IdentityErrorIsReal(identity, policies, known);
    } else {
      var loaded := LoadIdentity(identity, policies).value;
      IdentityLoadsIff(identity, policies, known);
      IdentityNamesOf(before, identity, rest);
      if loaded.name in identities {
        RepeatsWith(IdentityNames(before), identity.name, IdentityNames(rest));
      } else {
        IdentitiesErrorIsReal(before + [identity], rest, policies, known, identities[loaded.name := loaded]);
      }
    }
  }

  /** What a refusal says of the file is true of it: of its policies, or of its identities if the policies are sound. */
  lemma LoadErrorIsReal(u: Unicode, raw: RawConfig)
    requires u.Lawful() && LoadConfig(u, raw).Err?
    ensures var e := LoadConfig(u, raw).error;
            if LoadPolicies(u, raw.policies, map[]).Err? then PolicyFault(u, raw.policies, e)
            else IdentitiesFault(raw.identities, PolicyNames(raw.policies), e)
  {
    var none: seq<RawPolicy>, nobody: seq<RawIdentity> := [], [];
    assert none + raw.policies == raw.policies && nobody + raw.identities == raw.identities;
    if LoadPolicies(u, raw.policies, map[]).Err? {
      PoliciesErrorIsReal(u, none, raw.policies, map[]);
    } else {
      LoadedPolicies(u, raw.policies, map[]);
      IdentitiesErrorIsReal(
        nobody, raw.identities, LoadPolicies(u, raw.policies, map[]).value, PolicyNames(raw.policies), map[]);
    }
  }
}
