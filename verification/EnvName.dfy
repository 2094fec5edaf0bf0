/** The environment variable name of a secret (crates/ciphr-core/src/env_name.rs). */
module EnvName {
  import opened Basics
  import opened Path

  predicate IsDigit(c: char) {
    '0' <= c <= '9'
  }

  predicate IsNameChar(c: char) {
    'a' <= c <= 'z' || 'A' <= c <= 'Z' || IsDigit(c) || c == '_'
  }

  datatype NameFault = NameIsEmpty | LeadingDigit | Character(character: char)

  datatype EnvNameError =
    | NotAName(found: string, reason: NameFault)
    | Collision(name: string, first: string, second: string)

  function FindUnusable(s: string): (found: Option<char>)
    ensures found.None? <==> forall c :: c in s ==> IsNameChar(c)
    ensures found.Some? ==> found.value in s && !IsNameChar(found.value)
  {
    if s == [] then None
    else if !IsNameChar(s[0]) then Some(s[0])
    else FindUnusable(s[1..])
  }

  function ParseName(input: string): Result<string, EnvNameError> {
    var fault :=
      if input == "" then Some(NameIsEmpty)
      else if IsDigit(input[0]) then Some(LeadingDigit)
      else
        match FindUnusable(input)
        case Some(c) => Some(Character(c))
        case None => None;
    match fault
    case Some(reason) => Err(NotAName(input, reason))
    case None => Ok(input)
  }

  /** A name that a shell accepts. */
  predicate IsName(s: string) {
    s != "" && !IsDigit(s[0]) && forall c :: c in s ==> IsNameChar(c)
  }

  lemma ParseNameIff(input: string)
    ensures ParseName(input) == Ok(input) <==> IsName(input)
    ensures ParseName(input).Ok? ==> ParseName(input).value == input
  {
  }

  function LastSegment(path: SecretPath): string {
    path.Segments()[|path.Segments()| - 1]
  }

  function ForPath(path: SecretPath): Result<string, EnvNameError> {
    ParseName(LastSegment(path))
  }

  /** A name and the path that claimed it. */
  datatype Claim = Claim(name: string, path: SecretPath)

  function FindClaim(claims: seq<Claim>, name: string): (found: Option<Claim>)
    ensures found.Some? ==> found.value in claims && found.value.name == name
    ensures found.None? ==> forall claim :: claim in claims ==> claim.name != name
  {
    if claims == [] then None
    else if claims[0].name == name then Some(claims[0])
    else FindClaim(claims[1..], name)
  }

  function NamesOf(claims: seq<Claim>): seq<string> {
    Map((claim: Claim) => claim.name, claims)
  }

  function AssignNames(paths: seq<SecretPath>, claims: seq<Claim>): Result<seq<string>, EnvNameError> {
    if paths == [] then Ok(NamesOf(claims))
    else
      var name :- ForPath(paths[0]);
      match FindClaim(claims, name)
      case Some(first) => Err(Collision(name, first.path.text, paths[0].text))
      case None => AssignNames(paths[1..], claims + [Claim(name, paths[0])])
  }

  method Assign(paths: seq<SecretPath>) returns (r: Result<seq<string>, EnvNameError>)
    ensures r == AssignNames(paths, [])
  {
    var claims: seq<Claim> := [];
    assert paths[0..] == paths;
    for i := 0 to |paths|
      invariant AssignNames(paths, []) == AssignNames(paths[i..], claims)
    {
      assert paths[i..][1..] == paths[i + 1..];
      var name :- ForPath(paths[i]);
      var first := FindClaim(claims, name);
      if first.Some? {
        return Err(Collision(name, first.value.path.text, paths[i].text));
      }
      claims := claims + [Claim(name, paths[i])];
    }
    return Ok(NamesOf(claims));
  }

  lemma ClaimedNames(claims: seq<Claim>, paths: seq<SecretPath>)
    requires |claims| == |paths| && forall i :: 0 <= i < |claims| ==> claims[i] == Claim(LastSegment(paths[i]), paths[i])
    ensures NamesOf(claims) == Map(LastSegment, paths)
  {
  }

  ghost predicate Claims(claims: seq<Claim>, done: seq<SecretPath>) {
    && |claims| == |done|
    && (forall i :: 0 <= i < |done| ==> claims[i] == Claim(LastSegment(done[i]), done[i]))
  }

  /** Last segments that are names, no two of them alike. */
  ghost predicate Nameable(paths: seq<SecretPath>) {
    Distinct(Map(LastSegment, paths)) && forall p :: p in paths ==> IsName(LastSegment(p))
  }

  lemma NotNameable(paths: seq<SecretPath>, i: nat, j: nat)
    requires i < |paths| && j < |paths|
    requires !IsName(LastSegment(paths[i])) || (i != j && LastSegment(paths[i]) == LastSegment(paths[j]))
    ensures !Nameable(paths)
  {
    assert paths[i] in paths;
    assert Map(LastSegment, paths)[i] == LastSegment(paths[i]) && Map(LastSegment, paths)[j] == LastSegment(paths[j]);
  }

  lemma {:induction false} AssignedFrom(done: seq<SecretPath>, paths: seq<SecretPath>, claims: seq<Claim>)
    requires Claims(claims, done) && Nameable(done)
    ensures AssignNames(paths, claims).Ok? <==> Nameable(done + paths)
    ensures AssignNames(paths, claims).Ok? ==> AssignNames(paths, claims).value == Map(LastSegment, done + paths)
    decreases |paths|
  {
    var all := done + paths;
    if paths == [] {
      assert all == done;
      ClaimedNames(claims, done);
    } else {
      var name := LastSegment(paths[0]);
      assert all[|done|] == paths[0];
      if !IsName(name) {
        NotNameable(all, |done|, |done|);
      } else if FindClaim(claims, name).Some? {
        var i := ClaimedBefore(done, claims, name);
        NotNameable(all, i, |done|);
      } else {
        assert all == done + [paths[0]] + paths[1..];
        NewName(done, paths[0], claims);
        AssignedFrom(done + [paths[0]], paths[1..], claims + [Claim(name, paths[0])]);
      }
    }
  }

  lemma ClaimedBefore(done: seq<SecretPath>, claims: seq<Claim>, name: string) returns (i: nat)
    requires Claims(claims, done) && FindClaim(claims, name).Some?
    ensures i < |done| && LastSegment(done[i]) == name && FindClaim(claims, name).value.path == done[i]
  {
    i :| 0 <= i < |claims| && claims[i] == FindClaim(claims, name).value;
  }

  ghost predicate Collide(paths: seq<SecretPath>, i: nat, j: nat, e: EnvNameError) {
    && i < j < |paths| && e.Collision?
    && LastSegment(paths[i]) == LastSegment(paths[j]) == e.name
    && paths[i].text == e.first && paths[j].text == e.second
  }

  lemma {:induction false} CollisionFrom(done: seq<SecretPath>, paths: seq<SecretPath>, claims: seq<Claim>)
    returns (i: nat, j: nat)
    requires Claims(claims, done)
    requires AssignNames(paths, claims).Err? && AssignNames(paths, claims).error.Collision?
    ensures Collide(done + paths, i, j, AssignNames(paths, claims).error)
    decreases |paths|
  {
    var name := LastSegment(paths[0]);
    assert (done + paths)[|done|] == paths[0];
    if FindClaim(claims, name).Some? {
      i := ClaimedBefore(done, claims, name);
      j := |done|;
    } else {
      assert done + paths == done + [paths[0]] + paths[1..];
      i, j := CollisionFrom(done + [paths[0]], paths[1..], claims + [Claim(name, paths[0])]);
    }
  }

  lemma NewName(done: seq<SecretPath>, path: SecretPath, claims: seq<Claim>)
    requires Claims(claims, done) && Nameable(done) && IsName(LastSegment(path))
    requires forall claim :: claim in claims ==> claim.name != LastSegment(path)
    ensures Claims(claims + [Claim(LastSegment(path), path)], done + [path])
    ensures Nameable(done + [path])
  {
    var names := Map(LastSegment, done + [path]);
    forall i, j | 0 <= i < j < |names| ensures names[i] != names[j] {
      assert names[i] == LastSegment(done[i]) == Map(LastSegment, done)[i];
      assert claims[i] in claims;
      if j < |done| {
        assert names[j] == Map(LastSegment, done)[j];
      }
    }
  }

  /** A set of paths gets its last segments as names exactly when they are names and all differ. */
  lemma AssignedIff(paths: seq<SecretPath>)
    ensures AssignNames(paths, []).Ok? <==> Nameable(paths)
    ensures AssignNames(paths, []).Ok? ==> AssignNames(paths, []).value == Map(LastSegment, paths)
  {
    AssignedFrom([], paths, []);
    assert [] + paths == paths;
  }

  /** A refused set names two of its paths, in order, that want the same name. */
  lemma CollisionIsReal(paths: seq<SecretPath>)
    requires AssignNames(paths, []).Err? && AssignNames(paths, []).error.Collision?
    ensures exists i: nat, j: nat :: Collide(paths, i, j, AssignNames(paths, []).error)
  {
    var i, j := CollisionFrom([], paths, []);
    assert [] + paths == paths;
  }

  lemma {:induction false} FirstUnusable(s: string, k: nat)
    requires k < |s| && !IsNameChar(s[k]) && forall j :: 0 <= j < k ==> IsNameChar(s[j])
    ensures FindUnusable(s) == Some(s[k])
  {
    if k > 0 {
      FirstUnusable(s[1..], k - 1);
    }
  }

  /** Why a text is no name: that it is empty, begins with a digit, or the first character that does not belong. */
  lemma NameRefusedIff(input: string)
    ensures ParseName(input) == Err(NotAName(input, NameIsEmpty)) <==> input == ""
    ensures ParseName(input) == Err(NotAName(input, LeadingDigit)) <==> input != "" && IsDigit(input[0])
    ensures forall k :: 0 <= k < |input| && !IsDigit(input[0]) && !IsNameChar(input[k])
                        && (forall j :: 0 <= j < k ==> IsNameChar(input[j])) ==>
              ParseName(input) == Err(NotAName(input, Character(input[k])))
  {
    forall k | 0 <= k < |input| && !IsDigit(input[0]) && !IsNameChar(input[k])
               && (forall j :: 0 <= j < k ==> IsNameChar(input[j]))
      ensures ParseName(input) == Err(NotAName(input, Character(input[k])))
    {
      FirstUnusable(input, k);
    }
  }
}
