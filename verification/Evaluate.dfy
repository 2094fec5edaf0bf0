/** The authorization decision (crates/ciphr-policy/src/evaluate.rs). */
module Evaluate {
  import opened Basics
  import opened Text
  import opened Path
  import opened Pattern
  import opened Policy
  import opened PolicyOrder

  datatype Effect = Allow | Deny
  datatype DenyReason = UnknownIdentity | NoMatchingRule | NotGranted | Tie
  datatype MatchedRule = MatchedRule(policy: string, pattern: string, specificity: nat)
  datatype Decision = Decision(effect: Effect, reason: Option<DenyReason>, rule: Option<MatchedRule>)

  /** A matching rule and the name of the policy it belongs to. */
  datatype Match = Match(rule: Rule, policy: string) {
    function Specificity(): nat {
      rule.pattern.Specificity()
    }

    function Describe(): MatchedRule {
      MatchedRule(policy, rule.pattern.text, Specificity())
    }

    /** The order in which the audit trail names rules: by policy, then by pattern text. */
    predicate Before(other: Match) {
      || Less(policy, other.policy)
      || (policy == other.policy && Less(rule.pattern.text, other.rule.pattern.text))
    }
  }

  function Allowed(rule: MatchedRule): Decision {
    Decision(Allow, None, Some(rule))
  }

  function Denied(reason: DenyReason, rule: Option<MatchedRule>): Decision {
    Decision(Deny, Some(reason), rule)
  }

  // ----- what a decision is, without any order

  ghost function MatchesOfPolicy(policy: string, rules: seq<Rule>, path: SecretPath): set<Match> {
    set rule | rule in rules && rule.pattern.Accepts(path) :: Match(rule, policy)
  }

  ghost function MatchSet(ps: PolicySet, names: seq<string>, path: SecretPath): set<Match> {
    set name, rule | name in names && name in ps.policies && rule in ps.policies[name].rules && rule.pattern.Accepts(path)
      :: Match(rule, ps.policies[name].name)
  }

  ghost function Winners(matches: set<Match>): set<Match> {
    set m | m in matches && forall n :: n in matches ==> n.Specificity() <= m.Specificity()
  }

  ghost function Refusing(matches: set<Match>, capability: Capability): set<Match> {
    set m | m in matches && capability !in m.rule.capabilities
  }

  ghost predicate IsFirst(matches: set<Match>, m: Match) {
    m in matches && forall n :: n in matches ==> !n.Before(m)
  }

  /** Names a first element of `matches`. */
  ghost predicate NamesFirst(matches: set<Match>, rule: Option<MatchedRule>) {
    exists m :: IsFirst(matches, m) && rule == Some(m.Describe())
  }

  /** The most specific matches decide, and a single one of them that refuses is enough. */
  ghost predicate Decides(matches: set<Match>, capability: Capability, d: Decision) {
    var winners := Winners(matches);
    var refusing := Refusing(winners, capability);
    if matches == {} then
      d == Denied(NoMatchingRule, None)
    else if refusing == {} then
      d.effect == Allow && d.reason == None && NamesFirst(winners, d.rule)
    else
      && d.effect == Deny
      && d.reason == Some(if refusing == winners then NotGranted else Tie)
      && NamesFirst(refusing, d.rule)
  }

  ghost predicate IsDecision(ps: PolicySet, identity: string, path: SecretPath, capability: Capability, d: Decision) {
    if identity !in ps.identities then d == Denied(UnknownIdentity, None)
    else Decides(MatchSet(ps, ps.identities[identity].policies, path), capability, d)
  }

  // ----- the source's steps

  function MostSpecific(matches: seq<Match>): (n: nat)
    ensures forall m :: m in matches ==> m.Specificity() <= n
    ensures matches != [] ==> exists m :: m in matches && m.Specificity() == n
  {
    if matches == [] then 0
    else
      var rest := MostSpecific(matches[1..]);
      assert matches[0] in matches && forall m :: m in matches[1..] ==> m in matches;
      if matches[0].Specificity() >= rest then matches[0].Specificity() else rest
  }

  function WithSpecificity(matches: seq<Match>, n: nat): (r: seq<Match>)
    ensures forall m :: m in r <==> m in matches && m.Specificity() == n
  {
    if matches == [] then []
    else (if matches[0].Specificity() == n then [matches[0]] else []) + WithSpecificity(matches[1..], n)
  }

  ghost predicate Ordered(s: seq<Match>) {
    forall i, j :: 0 <= i < j < |s| ==> !s[j].Before(s[i])
  }

  lemma NotBeforeIsTransitive(a: Match, b: Match, c: Match)
    requires !b.Before(a) && !c.Before(b)
    ensures !c.Before(a)
  {
    LessIsTotal(a.policy, b.policy);
    LessIsTotal(b.policy, c.policy);
    LessIsTotal(a.policy, c.policy);
    var (textA, textB, textC) := (a.rule.pattern.text, b.rule.pattern.text, c.rule.pattern.text);
    LessIsTotal(textA, textB);
    LessIsTotal(textB, textC);
    LessIsTotal(textA, textC);
    if Less(a.policy, b.policy) && Less(b.policy, c.policy) {
      LessIsTransitive(a.policy, b.policy, c.policy);
    }
    if Less(textA, textB) && Less(textB, textC) {
      LessIsTransitive(textA, textB, textC);
    }
  }

  /** Insertion that keeps equal elements in the order they came, as a stable sort does. */
  function Insert(m: Match, s: seq<Match>): (r: seq<Match>)
    ensures multiset(r) == multiset{m} + multiset(s)
  {
    if s == [] then [m]
    else if s[0].Before(m) then
      assert s == [s[0]] + s[1..];
      [s[0]] + Insert(m, s[1..])
    else [m] + s
  }

  lemma {:induction false} InsertKeepsOrder(m: Match, s: seq<Match>)
    requires Ordered(s)
    ensures Ordered(Insert(m, s))
  {
    if s != [] {
      var r := Insert(m, s);
      if s[0].Before(m) {
        var rest := Insert(m, s[1..]);
        InsertKeepsOrder(m, s[1..]);
        assert r == [s[0]] + rest;
        forall i, j | 0 <= i < j < |r| ensures !r[j].Before(r[i]) {
          assert r[j] == rest[j - 1];
          if i == 0 {
            assert rest[j - 1] in multiset(rest);
            if rest[j - 1] == m {
              BeforeIsAsymmetric(s[0], m);
            } else {
              assert rest[j - 1] in s[1..];
            }
          } else {
            assert r[i] == rest[i - 1];
          }
        }
      } else {
        forall i, j | 0 <= i < j < |r| ensures !r[j].Before(r[i]) {
          assert r[j] == s[j - 1];
          if i == 0 {
            NotBeforeIsTransitive(m, s[0], s[j - 1]) by {
              BeforeIsAsymmetric(s[0], s[0]);
            }
          } else {
            assert r[i] == s[i - 1];
          }
        }
      }
    }
  }

  lemma BeforeIsAsymmetric(a: Match, b: Match)
    ensures !(a.Before(b) && b.Before(a))
  {
    LessIsTotal(a.policy, b.policy);
    LessIsTotal(a.rule.pattern.text, b.rule.pattern.text);
  }

  function Sort(s: seq<Match>): (r: seq<Match>)
    ensures multiset(r) == multiset(s)
    ensures Ordered(r)
  {
    if s == [] then []
    else
      var rest := Sort(s[..|s| - 1]);
      assert s == s[..|s| - 1] + [s[|s| - 1]];
      InsertKeepsOrder(s[|s| - 1], rest);
      Insert(s[|s| - 1], rest)
  }

  function CountGranting(s: seq<Match>, capability: Capability): (n: nat)
    ensures n <= |s|
    ensures n == |s| <==> forall m :: m in s ==> capability in m.rule.capabilities
    ensures n == 0 <==> forall m :: m in s ==> capability !in m.rule.capabilities
  {
    if s == [] then 0
    else
      assert forall m :: m in s <==> m == s[0] || m in s[1..];
      (if capability in s[0].rule.capabilities then 1 else 0) + CountGranting(s[1..], capability)
  }

  function FindRefusing(s: seq<Match>, capability: Capability): (i: nat)
    ensures i <= |s|
    ensures i < |s| ==> capability !in s[i].rule.capabilities
    ensures forall j :: 0 <= j < i ==> capability in s[j].rule.capabilities
  {
    if s == [] || capability !in s[0].rule.capabilities then 0
    else 1 + FindRefusing(s[1..], capability)
  }

  ghost function Members(s: seq<Match>): set<Match> {
    set m | m in s
  }

  lemma OneMorePolicy(ps: PolicySet, names: seq<string>, i: nat, path: SecretPath)
    requires i < |names|
    ensures MatchSet(ps, names[..i + 1], path) == MatchSet(ps, names[..i], path)
            + if names[i] in ps.policies
              then MatchesOfPolicy(ps.policies[names[i]].name, ps.policies[names[i]].rules, path) else {}
  {
    assert names[..i + 1] == names[..i] + [names[i]];
  }

  lemma OneMoreRule(policy: string, rules: seq<Rule>, j: nat, path: SecretPath)
    requires j < |rules|
    ensures MatchesOfPolicy(policy, rules[..j + 1], path) == MatchesOfPolicy(policy, rules[..j], path)
            + if rules[j].pattern.Accepts(path) then {Match(rules[j], policy)} else {}
  {
    assert rules[..j + 1] == rules[..j] + [rules[j]];
  }

  /** The source's collection of every matching rule of every attached policy. */
  method CollectMatches(ps: PolicySet, names: seq<string>, path: SecretPath) returns (matches: seq<Match>)
    ensures Members(matches) == MatchSet(ps, names, path)
  {
    matches := [];
    for i := 0 to |names|
      invariant Members(matches) == MatchSet(ps, names[..i], path)
    {
      OneMorePolicy(ps, names, i, path);
      if names[i] !in ps.policies {
        continue;
      }
      var policy := ps.policies[names[i]];
      for j := 0 to |policy.rules|
        invariant Members(matches) == MatchSet(ps, names[..i], path) + MatchesOfPolicy(policy.name, policy.rules[..j], path)
      {
        OneMoreRule(policy.name, policy.rules, j, path);
        var matched := policy.rules[j].pattern.Matches(path);
        if matched {
          var m := Match(policy.rules[j], policy.name);
          assert Members(matches + [m]) == Members(matches) + {m};
          matches := matches + [m];
        }
      }
      assert policy.rules[..|policy.rules|] == policy.rules;
    }
    assert names[..|names|] == names;
  }

  lemma WinnersAre(matches: seq<Match>)
    requires matches != []
    ensures Members(WithSpecificity(matches, MostSpecific(matches))) == Winners(Members(matches)) != {}
  {
    var n := MostSpecific(matches);
    var m :| m in matches && m.Specificity() == n;
    assert m in Winners(Members(matches));
  }

  lemma SortedMembers(s: seq<Match>)
    ensures Members(Sort(s)) == Members(s) && |Sort(s)| == |s|
  {
    forall m ensures m in Sort(s) <==> m in s {
      assert m in Sort(s) <==> m in multiset(Sort(s));
      assert m in s <==> m in multiset(s);
    }
    assert |multiset(Sort(s))| == |multiset(s)|;
  }

  lemma FirstOfOrdered(s: seq<Match>, capability: Capability)
    requires Ordered(s) && s != []
    ensures IsFirst(Members(s), s[0])
    ensures var i := FindRefusing(s, capability);
            i < |s| ==> IsFirst(Refusing(Members(s), capability), s[i])
  {
    forall n | n in s ensures !n.Before(s[0]) {
      var j :| 0 <= j < |s| && s[j] == n;
      BeforeIsAsymmetric(s[0], s[0]);
    }
    var i := FindRefusing(s, capability);
    forall n | i < |s| && n in Refusing(Members(s), capability) ensures !n.Before(s[i]) {
      var j :| 0 <= j < |s| && s[j] == n;
      BeforeIsAsymmetric(s[i], s[i]);
    }
  }

  /** The source's decision. */
  method Evaluate(ps: PolicySet, identity: string, path: SecretPath, capability: Capability) returns (d: Decision)
    ensures IsDecision(ps, identity, path, capability, d)
  {
    if identity !in ps.identities {
      return Denied(UnknownIdentity, None);
    }
    var matches := CollectMatches(ps, ps.identities[identity].policies, path);
    if matches == [] {
      return Denied(NoMatchingRule, None);
    }
    assert matches[0] in Members(matches);
    var chosen := WithSpecificity(matches, MostSpecific(matches));
    WinnersAre(matches);
    var winners := Sort(chosen);
    SortedMembers(chosen);
    d := Settle(winners, capability);
    assert Winners(MatchSet(ps, ps.identities[identity].policies, path)) == Members(winners);
  }

  /** Counting the granting winners and naming one. */
  method Settle(winners: seq<Match>, capability: Capability) returns (d: Decision)
    requires Members(winners) != {} && Ordered(winners)
    ensures var refusing := Refusing(Members(winners), capability);
            if refusing == {} then d.effect == Allow && d.reason == None && NamesFirst(Members(winners), d.rule)
            else
              && d.effect == Deny
              && d.reason == Some(if refusing == Members(winners) then NotGranted else Tie)
              && NamesFirst(refusing, d.rule)
  {
    ghost var m :| m in Members(winners);
    FirstOfOrdered(winners, capability);
    var granting := CountGranting(winners, capability);
    if granting == |winners| {
      assert Refusing(Members(winners), capability) == {};
      return Allowed(winners[0].Describe());
    }
    var i := FindRefusing(winners, capability);
    assert i < |winners|;
    assert winners[i] in Refusing(Members(winners), capability);
    assert Refusing(Members(winners), capability) == Members(winners) ==> granting == 0 by {
      assert forall n :: n in winners ==> n in Members(winners);
    }
    return Denied(if granting == 0 then NotGranted else Tie, Some(winners[i].Describe()));
  }

  /** Capability by capability through the one decision. */
  method EffectiveCapabilities(ps: PolicySet, identity: string, path: SecretPath) returns (capabilities: set<Capability>)
    ensures identity !in ps.identities ==> capabilities == {}
    ensures identity in ps.identities ==>
              var matches := MatchSet(ps, ps.identities[identity].policies, path);
              forall c :: c in capabilities <==>
                matches != {} && forall m :: m in Winners(matches) ==> c in m.rule.capabilities
  {
    capabilities := {};
    for i := 0 to |ALL_CAPABILITIES|
      invariant forall c :: c in capabilities <==> c in ALL_CAPABILITIES[..i] && Grants(ps, identity, path, c)
    {
      var c := ALL_CAPABILITIES[i];
      var d := Evaluate(ps, identity, path, c);
      GrantsIff(ps, identity, path, c, d);
      assert ALL_CAPABILITIES[..i + 1] == ALL_CAPABILITIES[..i] + [c];
      if d.effect == Allow {
        capabilities := capabilities + {c};
      }
    }
    AllCapabilities();
  }

  lemma AllCapabilities()
    ensures ALL_CAPABILITIES[..|ALL_CAPABILITIES|] == ALL_CAPABILITIES
    ensures forall c: Capability :: c in ALL_CAPABILITIES
  {
    forall c: Capability ensures c in ALL_CAPABILITIES {
      match c
      case Read => assert ALL_CAPABILITIES[0] == c;
      case Write => assert ALL_CAPABILITIES[1] == c;
      case Delete => assert ALL_CAPABILITIES[2] == c;
      case List => assert ALL_CAPABILITIES[3] == c;
      case Undelete => assert ALL_CAPABILITIES[4] == c;
      case Inspect => assert ALL_CAPABILITIES[5] == c;
      case Revoke => assert ALL_CAPABILITIES[6] == c;
    }
  }

  // ----- what the decision means

  /** Some rule matches, and every matching rule of maximal specificity grants. */
  ghost predicate Grants(ps: PolicySet, identity: string, path: SecretPath, capability: Capability) {
    && identity in ps.identities
    && var matches := MatchSet(ps, ps.identities[identity].policies, path);
       matches != {} && forall m :: m in Winners(matches) ==> capability in m.rule.capabilities
  }

  lemma GrantsIff(ps: PolicySet, identity: string, path: SecretPath, capability: Capability, d: Decision)
    requires IsDecision(ps, identity, path, capability, d)
    ensures d.effect == Allow <==> Grants(ps, identity, path, capability)
  {
    if identity in ps.identities {
      var winners := Winners(MatchSet(ps, ps.identities[identity].policies, path));
      assert Refusing(winners, capability) == {} <==> forall m :: m in winners ==> capability in m.rule.capabilities by {
        assert forall m :: m in winners && capability !in m.rule.capabilities ==> m in Refusing(winners, capability);
      }
    }
  }

  lemma OneNameIsFirst(matches: set<Match>, first: Option<MatchedRule>, other: Option<MatchedRule>)
    requires NamesFirst(matches, first) && NamesFirst(matches, other)
    requires forall m, n :: m in matches && n in matches ==> m.Specificity() == n.Specificity()
    ensures first == other
  {
    var m :| IsFirst(matches, m) && first == Some(m.Describe());
    var n :| IsFirst(matches, n) && other == Some(n.Describe());
    LessIsTotal(m.policy, n.policy);
    LessIsTotal(m.rule.pattern.text, n.rule.pattern.text);
    assert !m.Before(n) && !n.Before(m);
  }

  /** Effect, reason and named rule are fixed by the matches alone. */
  lemma DecisionIsUnique(
      ps: PolicySet, identity: string, path: SecretPath, capability: Capability, d: Decision, e: Decision)
    requires IsDecision(ps, identity, path, capability, d) && IsDecision(ps, identity, path, capability, e)
    ensures d == e
  {
    if identity in ps.identities {
      var matches := MatchSet(ps, ps.identities[identity].policies, path);
      var winners := Winners(matches);
      var refusing := Refusing(winners, capability);
      if matches != {} && refusing == {} {
        OneNameIsFirst(winners, d.rule, e.rule);
      } else if matches != {} {
        OneNameIsFirst(refusing, d.rule, e.rule);
      }
    }
  }

  lemma SameMatches(s: PolicySet, t: PolicySet, a: seq<string>, b: seq<string>, path: SecretPath)
    requires SameContents(s, t) && SameMembers(a, b)
    ensures MatchSet(s, a, path) == MatchSet(t, b, path)
  {
  }

  /** No decision depends on the order in which the file is written. */
  lemma DecisionIgnoresOrder(
    u: Unicode, a: RawConfig, b: RawConfig, s: PolicySet, t: PolicySet,
    identity: string, path: SecretPath, capability: Capability, d: Decision, e: Decision)
    requires Reordered(a, b) && LoadConfig(u, a) == Ok(s) && LoadConfig(u, b) == Ok(t)
    requires IsDecision(s, identity, path, capability, d) && IsDecision(t, identity, path, capability, e)
    ensures d == e
  {
    LoadIgnoresOrder(u, a, b);
    if identity in s.identities {
      SameMatches(s, t, s.identities[identity].policies, t.identities[identity].policies, path);
    }
    assert IsDecision(s, identity, path, capability, e);
    DecisionIsUnique(s, identity, path, capability, d, e);
  }

  /** Every pattern of a set is one that the loader could have made. */
  ghost predicate PatternsWellFormed(u: Unicode, ps: PolicySet) {
    forall name, rule :: name in ps.policies && rule in ps.policies[name].rules ==> WellFormed(u, rule.pattern)
  }

  lemma LoadedPatternsAreWellFormed(u: Unicode, raw: RawConfig, ps: PolicySet)
    requires u.Lawful() && LoadConfig(u, raw) == Ok(ps)
    ensures PatternsWellFormed(u, ps)
  {
    PolicyNamed(u, raw.policies, ps.policies);
    NamesOfPolicies(raw.policies);
    forall name, rule | name in ps.policies && rule in ps.policies[name].rules ensures WellFormed(u, rule.pattern) {
      var policy :| policy in raw.policies && policy.name == name;
      PolicyLoadsIff(u, policy);
      var i :| 0 <= i < |ps.policies[name].rules| && ps.policies[name].rules[i] == rule;
      assert StandsFor(u, policy.rules[i], rule);
      ParsedPatternIsWellFormed(u, policy.rules[i].path);
    }
  }

  /**
   * An access that an explicit denial matches is allowed only through a matching rule with strictly
   * more literal segments, which therefore does not cover everything that the denial covers.
   */
  lemma DenialYieldsOnlyToNarrower(
    u: Unicode, ps: PolicySet, identity: string, path: SecretPath, capability: Capability, d: Decision, denial: Match)
    requires u.Lawful() && PatternsWellFormed(u, ps)
    requires IsDecision(ps, identity, path, capability, d) && d.effect == Allow
    requires denial in MatchSet(ps, ps.identities[identity].policies, path) && denial.rule.IsDenial()
    ensures exists m ::
              && m in MatchSet(ps, ps.identities[identity].policies, path)
              && d.rule == Some(m.Describe())
              && capability in m.rule.capabilities
              && m.Specificity() > denial.Specificity()
              && !IncludedIn(u, denial.rule.pattern, m.rule.pattern)
  {
    GrantsIff(ps, identity, path, capability, d);
    var matches := MatchSet(ps, ps.identities[identity].policies, path);
    var m :| IsFirst(Winners(matches), m) && d.rule == Some(m.Describe());
    assert denial !in Winners(matches) by {
      assert capability !in denial.rule.capabilities;
    }
    var n :| n in matches && n.Specificity() > denial.Specificity();
    assert n.Specificity() <= m.Specificity();
    if IncludedIn(u, denial.rule.pattern, m.rule.pattern) {
      SpecificityRespectsInclusion(u, denial.rule.pattern, m.rule.pattern);
    }
  }

  /** One more explicit denial among the matches never turns a refusal into a permission. */
  lemma MoreDenialNeverGrants(matches: set<Match>, denial: Match, capability: Capability, d: Decision, e: Decision)
    requires Decides(matches, capability, d) && Decides(matches + {denial}, capability, e)
    requires denial.rule.IsDenial() && e.effect == Allow
    ensures d.effect == Allow
  {
    var more := matches + {denial};
    var m :| IsFirst(Winners(more), m);
    assert denial !in Winners(more) by {
      assert denial in Winners(more) ==> denial in Refusing(Winners(more), capability);
    }
    assert m in matches;
    assert denial.Specificity() < m.Specificity();
    forall n | n in Winners(matches) ensures capability in n.rule.capabilities {
      assert m.Specificity() <= n.Specificity();
      assert n in Winners(more);
      assert n !in Refusing(Winners(more), capability);
    }
    assert Refusing(Winners(matches), capability) == {};
  }
}
