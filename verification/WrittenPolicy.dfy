/**
 * From the words of a policy file to the decisions: what the file grants, read off the file itself
 * (crates/ciphr-core/src/capability.rs, crates/ciphr-policy/src/model.rs and evaluate.rs).
 */
module WrittenPolicy {
  import opened Basics
  import opened Text
  import opened Path
  import opened Pattern
  import opened Policy
  import opened PolicyOrder
  import opened Evaluate

  // ----- words

  /** The word for a capability. */
  predicate Writes(word: string, c: Capability) {
    || (word == "read" && c == Read)
    || (word == "write" && c == Write)
    || (word == "delete" && c == Delete)
    || (word == "list" && c == List)
    || (word == "undelete" && c == Undelete)
    || (word == "inspect" && c == Capability.Inspect)
    || (word == "revoke" && c == Revoke)
  }

  predicate IsWord(word: string) {
    word in ["read", "write", "delete", "list", "undelete", "inspect", "revoke"]
  }

  lemma LabelIsWord(word: string, c: Capability)
    ensures c.Label() == word <==> Writes(word, c)
  {
  }

  lemma LabelsDiffer(a: Capability, b: Capability)
    requires a.Label() == b.Label()
    ensures a == b
  {
    var x, y := a.Label(), b.Label();
    assert |x| == |y| && x[0] == y[0];
  }

  lemma WordIsParsedIff(word: string, c: Capability)
    ensures ParseCapability(word) == Some(c) <==> Writes(word, c)
  {
    AllCapabilities();
    LabelIsWord(word, c);
    var found := ParseCapability(word);
    if found.Some? && c.Label() == word {
      LabelsDiffer(found.value, c);
    }
  }

  lemma WordsAreParsed(word: string)
    ensures ParseCapability(word).Some? <==> IsWord(word)
    ensures ParseCapability(word).Some? ==> Writes(word, ParseCapability(word).value)
  {
    if ParseCapability(word).Some? {
      WordIsParsedIff(word, ParseCapability(word).value);
    }
    forall c | Writes(word, c) ensures ParseCapability(word) == Some(c) {
      WordIsParsedIff(word, c);
    }
    if IsWord(word) {
      var c :=
        if word == "read" then Read else if word == "write" then Write else if word == "delete" then Delete
        else if word == "list" then List else if word == "undelete" then Undelete
        else if word == "inspect" then Capability.Inspect else Revoke;
      assert Writes(word, c);
    }
  }

  lemma ControlPlaneWords(word: string, c: Capability)
    requires Writes(word, c)
    ensures c.IsControlPlane() <==> word == "inspect" || word == "revoke"
  {
  }

  // ----- patterns as they are written

  /** The segments of a written path, in its normal form. */
  function Parts(u: Unicode, rule: RawRule): seq<string> {
    Split(u.nfc(rule.path), '/')
  }

  predicate IsNamed(part: string) {
    part != "*" && part != "**"
  }

  /** How many segments are written out. */
  function NamedParts(parts: seq<string>): nat {
    if parts == [] then 0 else (if IsNamed(parts[0]) then 1 else 0) + NamedParts(parts[1..])
  }

  /** `*` stands for one segment, `**` for one or more, and any other text for itself. */
  predicate StandsIn(part: string, piece: seq<string>) {
    if part == "*" then |piece| == 1 else if part == "**" then |piece| >= 1 else piece == [part]
  }

  ghost predicate Pieces(parts: seq<string>, pieces: seq<seq<string>>, path: seq<string>) {
    && |pieces| == |parts|
    && (forall i :: 0 <= i < |parts| ==> StandsIn(parts[i], pieces[i]))
    && Flatten(pieces) == path
  }

  ghost predicate Covers(u: Unicode, rule: RawRule, path: SecretPath) {
    exists pieces :: Pieces(Parts(u, rule), pieces, path.Segments())
  }

  lemma {:induction false} NamedPartsAreLiterals(u: Unicode, segments: seq<Segment>)
    requires IsPattern(u, segments)
    ensures NamedParts(Rendered(segments)) == CountLiterals(segments)
  {
    if segments != [] {
      PatternTail(u, segments);
      NamedPartsAreLiterals(u, segments[1..]);
      LiteralIsNamed(u, segments[0]);
      assert Rendered(segments)[1..] == Rendered(segments[1..]);
    }
  }

  lemma LiteralIsNamed(u: Unicode, segment: Segment)
    requires segment.Literal? ==> IsSegment(u, segment.text)
    ensures IsNamed(segment.Render()) <==> segment.Literal?
    ensures forall piece :: StandsIn(segment.Render(), piece) <==> Fills(segment, piece)
  {
    assert '*' in "*" && '*' in "**";
  }

  lemma PartsOfPattern(u: Unicode, rule: RawRule)
    requires u.Lawful() && ParsePattern(u, rule.path).Ok?
    ensures var p := ParsePattern(u, rule.path).value;
            && Parts(u, rule) == Rendered(p.segments) && IsPattern(u, p.segments) && p.segments != []
            && NamedParts(Parts(u, rule)) == p.Specificity()
  {
    var p := ParsePattern(u, rule.path).value;
    ParsedPatternIsWellFormed(u, rule.path);
    RenderedParses(u, p.segments);
    SplitOfJoin(Rendered(p.segments), '/');
    NamedPartsAreLiterals(u, p.segments);
  }

  lemma {:induction false} RenderedAt(segments: seq<Segment>, i: nat)
    requires i < |segments|
    ensures Rendered(segments)[i] == segments[i].Render()
  {
    if i > 0 {
      RenderedAt(segments[1..], i - 1);
    }
  }

  lemma PiecesAreFilling(u: Unicode, segments: seq<Segment>, pieces: seq<seq<string>>, path: seq<string>)
    requires IsPattern(u, segments)
    ensures Pieces(Rendered(segments), pieces, path) <==> IsFilling(segments, pieces, path)
  {
    if |pieces| == |segments| {
      forall i | 0 <= i < |segments|
        ensures StandsIn(Rendered(segments)[i], pieces[i]) <==> Fills(segments[i], pieces[i])
      {
        RenderedAt(segments, i);
        LiteralIsNamed(u, segments[i]);
      }
    }
  }

  /** A loaded rule matches what its written path covers. */
  lemma CoversIff(u: Unicode, rule: RawRule, path: SecretPath)
    requires u.Lawful() && ParsePattern(u, rule.path).Ok?
    ensures Covers(u, rule, path) <==> ParsePattern(u, rule.path).value.Accepts(path)
  {
    var p := ParsePattern(u, rule.path).value;
    PartsOfPattern(u, rule);
    forall pieces
      ensures Pieces(Parts(u, rule), pieces, path.Segments()) <==> IsFilling(p.segments, pieces, path.Segments())
    {
      PiecesAreFilling(u, p.segments, pieces, path.Segments());
    }
    ParsedPatternIsWellFormed(u, rule.path);
    MatchesIffInLanguage(u, p, path);
  }

  // ----- which files load

  predicate ReservedWritten(u: Unicode, rule: RawRule) {
    Parts(u, rule)[0] == "sys"
  }

  lemma ReservedIff(u: Unicode, rule: RawRule)
    requires u.Lawful() && ParsePattern(u, rule.path).Ok?
    ensures ReservedWritten(u, rule) <==> ParsePattern(u, rule.path).value.NamesReservedPrefix()
  {
    var p := ParsePattern(u, rule.path).value;
    PartsOfPattern(u, rule);
    RenderedAt(p.segments, 0);
  }

  /** A pattern, words without repetition, and under the reserved prefix only the two of the control plane. */
  ghost predicate RuleWritten(u: Unicode, rule: RawRule) {
    && ParsePattern(u, rule.path).Ok?
    && Distinct(rule.capabilities)
    && forall word :: word in rule.capabilities ==>
         IsWord(word) && (ReservedWritten(u, rule) ==> word == "inspect" || word == "revoke")
  }

  function NormalTexts(u: Unicode, rules: seq<RawRule>): (texts: seq<string>)
    ensures |texts| == |rules| && forall i :: 0 <= i < |rules| ==> texts[i] == u.nfc(rules[i].path)
  {
    Map((rule: RawRule) => u.nfc(rule.path), rules)
  }

  ghost predicate PolicyWritten(u: Unicode, policy: RawPolicy) {
    (forall rule :: rule in policy.rules ==> RuleWritten(u, rule)) && Distinct(NormalTexts(u, policy.rules))
  }

  ghost predicate IdentityWritten(identity: RawIdentity, policies: seq<RawPolicy>) {
    && (identity.kind == "machine" || identity.kind == "human")
    && Distinct(identity.policies)
    && forall name :: name in identity.policies ==> exists policy :: policy in policies && policy.name == name
  }

  ghost predicate FileWritten(u: Unicode, raw: RawConfig) {
    && (forall policy :: policy in raw.policies ==> PolicyWritten(u, policy))
    && Distinct(PolicyNames(raw.policies))
    && (forall identity :: identity in raw.identities ==> IdentityWritten(identity, raw.policies))
    && Distinct(IdentityNames(raw.identities))
  }

  lemma RuleWrittenIff(u: Unicode, rule: RawRule)
    requires u.Lawful()
    ensures RuleWritten(u, rule) <==> RuleAcceptable(u, rule)
  {
    if ParsePattern(u, rule.path).Ok? {
      var p := ParsePattern(u, rule.path).value;
      ReservedIff(u, rule);
      forall word
        ensures CapabilityFits(p, word) <==>
                IsWord(word) && (ReservedWritten(u, rule) ==> word == "inspect" || word == "revoke")
      {
        WordsAreParsed(word);
        if ParseCapability(word).Some? {
          ControlPlaneWords(word, ParseCapability(word).value);
        }
      }
    }
  }

  lemma SamePatternIff(u: Unicode, a: RawRule, b: RawRule)
    requires ParsePattern(u, a.path).Ok?
    ensures ParsePattern(u, a.path) == ParsePattern(u, b.path) <==> u.nfc(a.path) == u.nfc(b.path)
  {
  }

  lemma PolicyWrittenIff(u: Unicode, policy: RawPolicy)
    requires u.Lawful()
    ensures PolicyWritten(u, policy) <==> PolicyAcceptable(u, policy)
  {
    forall rule ensures RuleWritten(u, rule) <==> RuleAcceptable(u, rule) {
      RuleWrittenIff(u, rule);
    }
    var rules := policy.rules;
    if forall rule :: rule in rules ==> RuleWritten(u, rule) {
      forall i, j | 0 <= i < j < |rules|
        ensures Patterns(u, rules)[i] == Patterns(u, rules)[j] <==> NormalTexts(u, rules)[i] == NormalTexts(u, rules)[j]
      {
        assert RuleWritten(u, rules[i]);
        SamePatternIff(u, rules[i], rules[j]);
      }
    }
  }

  lemma IdentityWrittenIff(identity: RawIdentity, policies: seq<RawPolicy>)
    ensures IdentityWritten(identity, policies) <==> IdentityAcceptable(identity, PolicyNames(policies))
  {
    NamesOfPolicies(policies);
  }

  /** Which files load, in the words of the file. */
  lemma LoadsIffWritten(u: Unicode, raw: RawConfig)
    requires u.Lawful()
    ensures LoadConfig(u, raw).Ok? <==> FileWritten(u, raw)
  {
    LoadsIffAcceptable(u, raw);
    forall policy ensures PolicyWritten(u, policy) <==> PolicyAcceptable(u, policy) {
      PolicyWrittenIff(u, policy);
    }
    forall identity
      ensures IdentityWritten(identity, raw.policies) <==> IdentityAcceptable(identity, PolicyNames(raw.policies))
    {
      IdentityWrittenIff(identity, raw.policies);
    }
  }

  /** Each written identity is loaded as what its kind says. */
  lemma LoadedKinds(u: Unicode, raw: RawConfig, ps: PolicySet, identity: RawIdentity)
    requires LoadConfig(u, raw) == Ok(ps) && identity in raw.identities
    ensures identity.name in ps.identities && ps.identities[identity.name].policies == identity.policies
    ensures ps.identities[identity.name].kind == Machine <==> identity.kind == "machine"
    ensures ps.identities[identity.name].kind == Human <==> identity.kind == "human"
  {
    IdentityNamed(raw.identities, ps.policies, ps.identities);
  }

  // ----- which accesses the file grants

  /** A rule of a policy that the file attaches to the identity, which covers the path. */
  ghost predicate AppliesIn(
    u: Unicode, raw: RawConfig, name: string, path: SecretPath, identity: RawIdentity, policy: RawPolicy, rule: RawRule)
  {
    && identity in raw.identities && identity.name == name
    && policy in raw.policies && policy.name in identity.policies
    && rule in policy.rules && Covers(u, rule, path)
  }

  ghost predicate Applies(u: Unicode, raw: RawConfig, name: string, path: SecretPath, rule: RawRule) {
    exists identity, policy :: AppliesIn(u, raw, name, path, identity, policy, rule)
  }

  /** No rule that applies has more segments written out. */
  ghost predicate MostSpecificWritten(u: Unicode, raw: RawConfig, name: string, path: SecretPath, rule: RawRule) {
    && Applies(u, raw, name, path, rule)
    && forall other :: Applies(u, raw, name, path, other) ==> NamedParts(Parts(u, other)) <= NamedParts(Parts(u, rule))
  }

  /** Some rule applies, and every most specific one lists the word. */
  ghost predicate WrittenGrants(u: Unicode, raw: RawConfig, name: string, path: SecretPath, word: string) {
    && (exists rule :: Applies(u, raw, name, path, rule))
    && forall rule :: MostSpecificWritten(u, raw, name, path, rule) ==> word in rule.capabilities
  }

  lemma GrantedIff(names: seq<string>, word: string, c: Capability)
    requires Writes(word, c)
    ensures c in Granted(names) <==> word in names
  {
    WordIsParsedIff(word, c);
    forall name | ParseCapability(name) == Some(c) ensures name == word {
      WordIsParsedIff(name, c);
    }
  }

  /** A written rule and the match that it becomes. */
  ghost predicate BecomesMatch(u: Unicode, rule: RawRule, m: Match) {
    StandsFor(u, rule, m.rule)
  }

  lemma WrittenBecomesMatch(
    u: Unicode, raw: RawConfig, ps: PolicySet, name: string, path: SecretPath, rule: RawRule) returns (m: Match)
    requires u.Lawful() && LoadConfig(u, raw) == Ok(ps) && Applies(u, raw, name, path, rule)
    ensures name in ps.identities && m in MatchSet(ps, ps.identities[name].policies, path) && BecomesMatch(u, rule, m)
  {
    var identity, policy :| AppliesIn(u, raw, name, path, identity, policy, rule);
    LoadedKinds(u, raw, ps, identity);
    PolicyNamed(u, raw.policies, ps.policies);
    PolicyLoadsIff(u, policy);
    var rules := ps.policies[policy.name].rules;
    var i :| 0 <= i < |policy.rules| && policy.rules[i] == rule;
    assert StandsFor(u, policy.rules[i], rules[i]);
    CoversIff(u, rule, path);
    m := Match(rules[i], ps.policies[policy.name].name);
    assert rules[i] in ps.policies[policy.name].rules;
  }

  lemma MatchWasWritten(u: Unicode, raw: RawConfig, ps: PolicySet, name: string, path: SecretPath, m: Match)
    returns (rule: RawRule)
    requires u.Lawful() && LoadConfig(u, raw) == Ok(ps) && name in ps.identities
    requires m in MatchSet(ps, ps.identities[name].policies, path)
    ensures Applies(u, raw, name, path, rule) && BecomesMatch(u, rule, m)
  {
    IdentityNamed(raw.identities, ps.policies, ps.identities);
    NamesOfIdentities(raw.identities);
    var identity :| identity in raw.identities && identity.name == name;
    PolicyNamed(u, raw.policies, ps.policies);
    NamesOfPolicies(raw.policies);
    var attached :| attached in ps.identities[name].policies && attached in ps.policies
                    && m.rule in ps.policies[attached].rules;
    var policy :| policy in raw.policies && policy.name == attached;
    PolicyLoadsIff(u, policy);
    var rules := ps.policies[attached].rules;
    var i :| 0 <= i < |rules| && rules[i] == m.rule;
    rule := policy.rules[i];
    assert StandsFor(u, policy.rules[i], rules[i]);
    CoversIff(u, rule, path);
    assert AppliesIn(u, raw, name, path, identity, policy, rule);
  }

  /** What a written rule and its match agree on. */
  lemma MatchAgrees(u: Unicode, rule: RawRule, m: Match, word: string, c: Capability)
    requires u.Lawful() && BecomesMatch(u, rule, m) && Writes(word, c)
    ensures m.Specificity() == NamedParts(Parts(u, rule))
    ensures c in m.rule.capabilities <==> word in rule.capabilities
  {
    PartsOfPattern(u, rule);
    GrantedIff(rule.capabilities, word, c);
  }

  lemma MostSpecificIsWinner(
    u: Unicode, raw: RawConfig, ps: PolicySet, name: string, path: SecretPath, rule: RawRule, m: Match)
    requires u.Lawful() && LoadConfig(u, raw) == Ok(ps) && name in ps.identities
    requires m in MatchSet(ps, ps.identities[name].policies, path) && BecomesMatch(u, rule, m)
    requires Applies(u, raw, name, path, rule)
    ensures m in Winners(MatchSet(ps, ps.identities[name].policies, path)) <==>
            MostSpecificWritten(u, raw, name, path, rule)
  {
    var matches := MatchSet(ps, ps.identities[name].policies, path);
    MatchAgrees(u, rule, m, "read", Read);
    if MostSpecificWritten(u, raw, name, path, rule) {
      forall n | n in matches ensures n.Specificity() <= m.Specificity() {
        var other := MatchWasWritten(u, raw, ps, name, path, n);
        MatchAgrees(u, other, n, "read", Read);
      }
    }
    if m in Winners(matches) {
      forall other | Applies(u, raw, name, path, other)
        ensures NamedParts(Parts(u, other)) <= NamedParts(Parts(u, rule))
      {
        var n := WrittenBecomesMatch(u, raw, ps, name, path, other);
        MatchAgrees(u, other, n, "read", Read);
      }
    }
  }

  lemma GrantsIffWritten(
    u: Unicode, raw: RawConfig, ps: PolicySet, name: string, path: SecretPath, word: string, c: Capability)
    requires u.Lawful() && LoadConfig(u, raw) == Ok(ps) && Writes(word, c)
    ensures Grants(ps, name, path, c) <==> WrittenGrants(u, raw, name, path, word)
  {
    if WrittenGrants(u, raw, name, path, word) {
      var some :| Applies(u, raw, name, path, some);
      var found := WrittenBecomesMatch(u, raw, ps, name, path, some);
      forall m | m in Winners(MatchSet(ps, ps.identities[name].policies, path)) ensures c in m.rule.capabilities {
        var rule := MatchWasWritten(u, raw, ps, name, path, m);
        MostSpecificIsWinner(u, raw, ps, name, path, rule, m);
        MatchAgrees(u, rule, m, word, c);
      }
    }
    if Grants(ps, name, path, c) {
      var m :| m in MatchSet(ps, ps.identities[name].policies, path);
      var written := MatchWasWritten(u, raw, ps, name, path, m);
      forall rule | MostSpecificWritten(u, raw, name, path, rule) ensures word in rule.capabilities {
        var n := WrittenBecomesMatch(u, raw, ps, name, path, rule);
        MostSpecificIsWinner(u, raw, ps, name, path, rule, n);
        MatchAgrees(u, rule, n, word, c);
      }
    }
  }

  /**
   * From the file to the decision: an access is allowed exactly when some rule that the file
   * attaches to the identity covers the path, and each of those with the most segments written out
   * lists the word for the capability.
   */
  lemma AllowsIffWritten(
    u: Unicode, raw: RawConfig, ps: PolicySet, name: string, path: SecretPath, word: string, c: Capability, d: Decision)
    requires u.Lawful() && LoadConfig(u, raw) == Ok(ps) && IsDecision(ps, name, path, c, d)
    requires Writes(word, c)
    ensures d.effect == Allow <==> WrittenGrants(u, raw, name, path, word)
  {
    GrantsIff(ps, name, path, c, d);
    GrantsIffWritten(u, raw, ps, name, path, word, c);
  }
}
