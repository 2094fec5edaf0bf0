/** The patterns of authorization rules: parsing, matching and specificity (crates/ciphr-core/src/pattern.rs). */
module Pattern {
  import opened Basics
  import opened Text
  import opened Path

  datatype Segment = Literal(text: string) | One | Rest {
    function Render(): string {
      match this
      case Literal(text) => text
      case One => "*"
      case Rest => "**"
    }
  }

  datatype PatternError =
    | NoPattern
    | PatternTooLong(limit: nat, found: nat)
    | BadPatternSegment(segment: string, problem: SegmentProblem)
    | PartialWildcard(segment: string)
    | TrailingMultiWildcardOnly

  datatype PathPattern = PathPattern(segments: seq<Segment>, text: string) {
    predicate NamesReservedPrefix() {
      segments != [] && segments[0] == Literal(RESERVED_PREFIX)
    }

    function Specificity(): nat {
      CountLiterals(segments)
    }

    predicate HasWildcard() {
      exists s :: s in segments && !s.Literal?
    }

    predicate Accepts(path: SecretPath) {
      MatchesSegments(segments, path.Segments())
    }

    /** The source's linear scan: one step forward on both sides, never back. */
    method Matches(path: SecretPath) returns (matched: bool)
      ensures matched == Accepts(path)
    {
      var actual := path.Segments();
      var i := 0;
      while true
        invariant i <= |segments| && i <= |actual|
        invariant MatchesSegments(segments, actual) == MatchesSegments(segments[i..], actual[i..])
        decreases |segments| - i
      {
        if i < |segments| && i < |actual| {
          if segments[i] == Rest {
            return true;
          }
          if segments[i].Literal? && segments[i].text != actual[i] {
            return false;
          }
          i := i + 1;
        } else {
          return i == |segments| && i == |actual|;
        }
      }
    }
  }

  function CountLiterals(segments: seq<Segment>): nat {
    if segments == [] then 0
    else (if segments[0].Literal? then 1 else 0) + CountLiterals(segments[1..])
  }

  predicate MatchesSegments(pattern: seq<Segment>, path: seq<string>) {
    if pattern == [] || path == [] then pattern == [] && path == []
    else
      match pattern[0]
      case Rest => true
      case One => MatchesSegments(pattern[1..], path[1..])
      case Literal(text) => text == path[0] && MatchesSegments(pattern[1..], path[1..])
  }

  // ----- parsing

  function ParseSegment(u: Unicode, raw: string, isLast: bool): Result<Segment, PatternError> {
    if raw == "*" then Ok(One)
    else if raw == "**" then
      if isLast then Ok(Rest) else Err(TrailingMultiWildcardOnly)
    else
      match InspectSegment(u, raw)
      case Some(problem) => Err(BadPatternSegment(raw, problem))
      case None => if '*' in raw then Err(PartialWildcard(raw)) else Ok(Literal(raw))
  }

  function ParseSegments(u: Unicode, raw: seq<string>): Result<seq<Segment>, PatternError> {
    if raw == [] then Ok([])
    else
      var first :- ParseSegment(u, raw[0], |raw| == 1);
      var rest :- ParseSegments(u, raw[1..]);
      Ok([first] + rest)
  }

  function ParsePattern(u: Unicode, input: string): Result<PathPattern, PatternError> {
    var text := u.nfc(input);
    if text == "" then Err(NoPattern)
    else if ByteLen(text) > MAX_PATH_LEN then Err(PatternTooLong(MAX_PATH_LEN, ByteLen(text)))
    else
      var segments :- ParseSegments(u, Split(text, '/'));
      Ok(PathPattern(segments, text))
  }

  lemma PrependedNothing(r: Result<seq<Segment>, PatternError>)
    ensures Prepended([], r) == r
  {
    if r.Ok? {
      assert [] + r.value == r.value;
    }
  }

  /** The source's loop, which stops at the first segment that breaks a rule. */
  method Parse(u: Unicode, input: string) returns (r: Result<PathPattern, PatternError>)
    ensures r == ParsePattern(u, input)
  {
    var text := u.nfc(input);
    if text == "" {
      return Err(NoPattern);
    }
    if ByteLen(text) > MAX_PATH_LEN {
      return Err(PatternTooLong(MAX_PATH_LEN, ByteLen(text)));
    }
    var raw := Split(text, '/');
    var segments := [];
    assert raw[0..] == raw;
    PrependedNothing(ParseSegments(u, raw));
    for index := 0 to |raw|
      invariant ParseSegments(u, raw) == Prepended(segments, ParseSegments(u, raw[index..]))
    {
      assert raw[index..][1..] == raw[index + 1..];
      var segment := ParseSegment(u, raw[index], index == |raw| - 1);
      if segment.Err? {
        return Err(segment.error);
      }
      PrependedTwice(segments, segment.value, ParseSegments(u, raw[index + 1..]));
      segments := segments + [segment.value];
    }
    assert segments + [] == segments;
    return Ok(PathPattern(segments, text));
  }

  function Prepended(front: seq<Segment>, r: Result<seq<Segment>, PatternError>): Result<seq<Segment>, PatternError> {
    if r.Ok? then Ok(front + r.value) else r
  }

  lemma PrependedTwice(front: seq<Segment>, segment: Segment, r: Result<seq<Segment>, PatternError>)
    ensures Prepended(front, Prepended([segment], r)) == Prepended(front + [segment], r)
  {
    if r.Ok? {
      assert front + ([segment] + r.value) == front + [segment] + r.value;
    }
  }

  // ----- what a parsed pattern is

  function Rendered(segments: seq<Segment>): (raw: seq<string>)
    ensures |raw| == |segments|
  {
    if segments == [] then [] else [segments[0].Render()] + Rendered(segments[1..])
  }

  /** Literals obey the rules for path segments, and `**` comes last or not at all. */
  ghost predicate IsPattern(u: Unicode, segments: seq<Segment>) {
    forall i :: 0 <= i < |segments| ==>
      && (segments[i].Literal? ==> IsSegment(u, segments[i].text))
      && (segments[i].Rest? ==> i == |segments| - 1)
  }

  ghost predicate WellFormed(u: Unicode, p: PathPattern) {
    && p.segments != []
    && IsPattern(u, p.segments)
    && p.text == Join(Rendered(p.segments), '/')
    && ByteLen(p.text) <= MAX_PATH_LEN
  }

  lemma {:induction false} ParsedSegments(u: Unicode, raw: seq<string>)
    requires forall s :: s in raw ==> u.nfc(s) == s && '/' !in s
    requires ParseSegments(u, raw).Ok?
    ensures IsPattern(u, ParseSegments(u, raw).value)
    ensures Rendered(ParseSegments(u, raw).value) == raw
  {
    if raw != [] {
      var segments := ParseSegments(u, raw).value;
      var rest := ParseSegments(u, raw[1..]).value;
      ParsedSegments(u, raw[1..]);
      assert segments == [segments[0]] + rest && segments[1..] == rest;
      assert raw == [raw[0]] + raw[1..];
      forall i | 0 <= i < |segments|
        ensures segments[i].Literal? ==> IsSegment(u, segments[i].text)
        ensures segments[i].Rest? ==> i == |segments| - 1
      {
        if i > 0 {
          assert segments[i] == rest[i - 1];
        }
      }
    }
  }

  lemma PatternTail(u: Unicode, segments: seq<Segment>)
    requires IsPattern(u, segments) && segments != []
    ensures IsPattern(u, segments[1..])
    ensures segments[0].Literal? ==> IsSegment(u, segments[0].text)
    ensures segments[0].Rest? ==> |segments| == 1
  {
    var rest := segments[1..];
    forall i | 0 <= i < |rest|
      ensures rest[i].Literal? ==> IsSegment(u, rest[i].text)
      ensures rest[i].Rest? ==> i == |rest| - 1
    {
      assert rest[i] == segments[i + 1];
    }
  }

  lemma RenderParses(u: Unicode, segment: Segment, isLast: bool)
    requires segment.Literal? ==> IsSegment(u, segment.text)
    requires segment.Rest? ==> isLast
    ensures ParseSegment(u, segment.Render(), isLast) == Ok(segment) && '/' !in segment.Render()
  {
    assert '*' in "*" && '*' in "**" && '/' !in "*" && '/' !in "**";
  }

  lemma {:induction false} RenderedParses(u: Unicode, segments: seq<Segment>)
    requires IsPattern(u, segments)
    ensures ParseSegments(u, Rendered(segments)) == Ok(segments)
    ensures forall s :: s in Rendered(segments) ==> '/' !in s
  {
    if segments != [] {
      PatternTail(u, segments);
      RenderParses(u, segments[0], |segments| == 1);
      RenderedParses(u, segments[1..]);
      assert Rendered(segments)[1..] == Rendered(segments[1..]);
      assert segments == [segments[0]] + segments[1..];
    }
  }

  /** A parsed pattern is well formed: its text renders its segments. */
  lemma ParsedPatternIsWellFormed(u: Unicode, input: string)
    requires u.Lawful() && ParsePattern(u, input).Ok?
    ensures WellFormed(u, ParsePattern(u, input).value)
  {
    var text := u.nfc(input);
    var raw := Split(text, '/');
    assert u.nfc(text) == text;
    JoinOfSplit(text, '/');
    ParsedSegments(u, raw);
  }

  /** Two patterns that print alike are the same pattern. */
  lemma TextDeterminesPattern(u: Unicode, p: PathPattern, q: PathPattern)
    requires WellFormed(u, p) && WellFormed(u, q) && p.text == q.text
    ensures p == q
  {
    RenderedParses(u, p.segments);
    RenderedParses(u, q.segments);
    SplitOfJoin(Rendered(p.segments), '/');
    SplitOfJoin(Rendered(q.segments), '/');
  }

  // ----- the language of a pattern

  predicate Fills(segment: Segment, part: seq<string>) {
    match segment
    case Literal(text) => part == [text]
    case One => |part| == 1
    case Rest => |part| >= 1
  }

  ghost predicate IsFilling(pattern: seq<Segment>, parts: seq<seq<string>>, path: seq<string>) {
    && |parts| == |pattern|
    && (forall i :: 0 <= i < |pattern| ==> Fills(pattern[i], parts[i]))
    && Flatten(parts) == path
  }

  /** `*` stands for any one segment and `**` for any one or more. */
  ghost predicate InLanguage(pattern: seq<Segment>, path: seq<string>) {
    exists parts :: IsFilling(pattern, parts, path)
  }

  predicate RestOnlyLast(pattern: seq<Segment>) {
    forall i :: 0 <= i < |pattern| - 1 ==> !pattern[i].Rest?
  }

  lemma {:induction false} FillingMatches(pattern: seq<Segment>, parts: seq<seq<string>>, path: seq<string>)
    requires IsFilling(pattern, parts, path)
    ensures MatchesSegments(pattern, path)
  {
    if pattern != [] {
      assert Fills(pattern[0], parts[0]);
      assert path == parts[0] + Flatten(parts[1..]);
      if pattern[0] != Rest {
        assert path[1..] == Flatten(parts[1..]);
        forall i | 0 <= i < |pattern[1..]| ensures Fills(pattern[1..][i], parts[1..][i]) {
          assert Fills(pattern[i + 1], parts[i + 1]);
        }
        FillingMatches(pattern[1..], parts[1..], path[1..]);
      }
    }
  }

  function Filling(pattern: seq<Segment>, path: seq<string>): seq<seq<string>>
    requires MatchesSegments(pattern, path)
  {
    if pattern == [] then []
    else if pattern[0] == Rest then [path]
    else [[path[0]]] + Filling(pattern[1..], path[1..])
  }

  lemma {:induction false} MatchesFilling(pattern: seq<Segment>, path: seq<string>)
    requires MatchesSegments(pattern, path) && RestOnlyLast(pattern)
    ensures IsFilling(pattern, Filling(pattern, path), path)
  {
    if pattern != [] {
      var parts := Filling(pattern, path);
      if pattern[0] == Rest {
        assert |pattern| == 1;
        assert Flatten(parts) == path + Flatten(parts[1..]);
      } else {
        assert RestOnlyLast(pattern[1..]) by {
          assert forall i :: 0 <= i < |pattern[1..]| - 1 ==> pattern[1..][i] == pattern[i + 1];
        }
        MatchesFilling(pattern[1..], path[1..]);
        assert parts[1..] == Filling(pattern[1..], path[1..]);
        forall i | 0 <= i < |pattern| ensures Fills(pattern[i], parts[i]) {
          if i > 0 {
            assert Fills(pattern[1..][i - 1], parts[1..][i - 1]);
          }
        }
      }
    }
  }

  /** The linear scan decides the declarative language, because `**` can only come last. */
  lemma MatchesIffInLanguage(u: Unicode, p: PathPattern, path: SecretPath)
    requires WellFormed(u, p)
    ensures p.Accepts(path) <==> InLanguage(p.segments, path.Segments())
  {
    assert RestOnlyLast(p.segments);
    if p.Accepts(path) {
      MatchesFilling(p.segments, path.Segments());
    }
    if parts :| IsFilling(p.segments, parts, path.Segments()) {
      FillingMatches(p.segments, parts, path.Segments());
    }
  }

  // ----- literals

  function Literals(segments: seq<string>): (r: seq<Segment>)
    ensures |r| == |segments|
  {
    if segments == [] then [] else [Literal(segments[0])] + Literals(segments[1..])
  }

  function Exact(path: SecretPath): PathPattern {
    PathPattern(Literals(path.Segments()), path.text)
  }

  lemma PrefixStep(x: string, segments: seq<string>, y: string, path: seq<string>)
    ensures [x] + segments <= [y] + path <==> x == y && segments <= path
    ensures [x] + segments <= [y] + path ==> ([y] + path)[|segments| + 1..] == path[|segments|..]
  {
    if x == y && segments <= path {
      assert [x] + segments == ([y] + path)[..|segments| + 1];
      assert ([y] + path)[|segments| + 1..] == path[|segments|..];
    }
    if [x] + segments <= [y] + path {
      assert x == ([x] + segments)[0] == ([y] + path)[0] == y;
      assert segments == ([x] + segments)[1..] == ([y] + path)[..|segments| + 1][1..] == path[..|segments|];
    }
  }

  lemma {:induction false} LiteralsMatch(segments: seq<string>, tail: seq<Segment>, path: seq<string>)
    ensures MatchesSegments(Literals(segments) + tail, path)
            <==> segments <= path && MatchesSegments(tail, path[|segments|..])
  {
    if segments == [] {
      assert Literals(segments) + tail == tail && path[0..] == path;
    } else if path != [] {
      Regroup([Literal(segments[0])], Literals(segments[1..]), tail);
      assert (Literals(segments) + tail)[1..] == Literals(segments[1..]) + tail;
      LiteralsMatch(segments[1..], tail, path[1..]);
      assert segments == [segments[0]] + segments[1..] && path == [path[0]] + path[1..];
      PrefixStep(segments[0], segments[1..], path[0], path[1..]);
    }
  }

  /** The pattern made from a path matches that path alone. */
  lemma ExactMatchesOnlyItself(path: SecretPath, x: SecretPath)
    ensures Exact(path).Accepts(x) <==> x == path
  {
    LiteralsMatch(path.Segments(), [], x.Segments());
    assert Literals(path.Segments()) + [] == Literals(path.Segments());
    if Exact(path).Accepts(x) {
      SameSegmentsSameText(x, path);
    }
  }

  // The literals of `p` followed by `**` match what lies under `p`, by the byte test that paths
  // use, without `p` itself.
  lemma SubtreeIffStartsWith(p: SecretPath, x: SecretPath)
    ensures MatchesSegments(Literals(p.Segments()) + [Rest], x.Segments()) <==> x.StartsWith(p) && x != p
  {
    LiteralsMatch(p.Segments(), [Rest], x.Segments());
    StartsWithIff(x, p);
    if x.Segments() == p.Segments() {
      SameSegmentsSameText(x, p);
    }
  }

  // ----- specificity and inclusion

  ghost predicate IsValidPath(u: Unicode, x: SecretPath) {
    Path.Parse(u, x.text) == Ok(x)
  }

  /** Every path that `p` matches is matched by `q`. */
  ghost predicate IncludedIn(u: Unicode, p: PathPattern, q: PathPattern) {
    forall x :: IsValidPath(u, x) && p.Accepts(x) ==> q.Accepts(x)
  }

  function Tail<T>(s: seq<T>): seq<T> {
    if s == [] then [] else s[1..]
  }

  /** A path that `p` matches and that differs from every literal of `q` where `p` has a wildcard. */
  function Apart(p: seq<Segment>, q: seq<Segment>): (path: seq<string>)
    ensures |path| == |p|
  {
    if p == [] then []
    else
      var first :=
        if p[0].Literal? then p[0].text
        else if q != [] && q[0] == Literal("a") then "b" else "a";
      [first] + Apart(p[1..], Tail(q))
  }

  lemma {:induction false} ApartIsMatched(p: seq<Segment>, q: seq<Segment>)
    ensures MatchesSegments(p, Apart(p, q))
  {
    if p != [] {
      ApartIsMatched(p[1..], Tail(q));
      assert Apart(p, q)[1..] == Apart(p[1..], Tail(q));
    }
  }

  lemma {:induction false} ByteLenOfConcat(a: string, b: string)
    ensures ByteLen(a + b) == ByteLen(a) + ByteLen(b)
  {
    if a == [] {
      assert a + b == b;
    } else {
      assert (a + b)[1..] == a[1..] + b;
      ByteLenOfConcat(a[1..], b);
    }
  }

  lemma {:induction false} ApartIsNoLonger(p: seq<Segment>, q: seq<Segment>)
    requires p != []
    ensures ByteLen(Join(Apart(p, q), '/')) <= ByteLen(Join(Rendered(p), '/'))
  {
    var first, shown := Apart(p, q)[0], p[0].Render();
    assert ByteLen(first) <= ByteLen(shown) by {
      if !p[0].Literal? {
        assert first[1..] == [] && ByteLen(first) == 1;
        assert shown != [];
      }
    }
    if |p| > 1 {
      var restPath, restShown := Apart(p[1..], Tail(q)), Rendered(p[1..]);
      ApartIsNoLonger(p[1..], Tail(q));
      assert Apart(p, q)[1..] == restPath && Rendered(p)[1..] == restShown;
      ByteLenOfConcat(first + ['/'], Join(restPath, '/'));
      ByteLenOfConcat(shown + ['/'], Join(restShown, '/'));
      ByteLenOfConcat(first, ['/']);
      ByteLenOfConcat(shown, ['/']);
    }
  }

  lemma LetterIsSegment(u: Unicode, letter: char)
    requires u.Lawful() && 'a' <= letter <= 'z'
    ensures IsSegment(u, [letter])
  {
    assert u.nfc([letter]) == [letter];
    assert InspectChars(u, [letter]) == None by {
      assert [letter][1..] == [];
    }
    assert ByteLen([letter]) == 1 by {
      assert [letter][1..] == [];
    }
  }

  lemma {:induction false} ApartHasSegments(u: Unicode, p: seq<Segment>, q: seq<Segment>)
    requires u.Lawful() && IsPattern(u, p)
    ensures forall s :: s in Apart(p, q) ==> IsSegment(u, s)
  {
    if p != [] {
      LetterIsSegment(u, 'a');
      LetterIsSegment(u, 'b');
      assert IsPattern(u, p[1..]) by {
        assert forall i :: 0 <= i < |p[1..]| ==> p[1..][i] == p[i + 1];
      }
      ApartHasSegments(u, p[1..], Tail(q));
      assert IsSegment(u, Apart(p, q)[0]);
    }
  }

  /** The path that keeps `p` and `q` apart, as a value that parses. */
  lemma ApartIsValid(u: Unicode, p: PathPattern, q: seq<Segment>) returns (x: SecretPath)
    requires u.Lawful() && WellFormed(u, p)
    ensures IsValidPath(u, x) && p.Accepts(x) && x.Segments() == Apart(p.segments, q)
  {
    var path := Apart(p.segments, q);
    ApartHasSegments(u, p.segments, q);
    ApartIsNoLonger(p.segments, q);
    PathIsParsed(u, path);
    ApartIsMatched(p.segments, q);
    x := SecretPath(Join(path, '/'));
  }

  lemma {:induction false} MatchedApartHasFewerLiterals(p: seq<Segment>, q: seq<Segment>)
    requires RestOnlyLast(q) && MatchesSegments(q, Apart(p, q))
    ensures CountLiterals(q) <= CountLiterals(p)
  {
    if q != [] && q[0] != Rest {
      assert RestOnlyLast(q[1..]) by {
        assert forall i :: 0 <= i < |q[1..]| - 1 ==> q[1..][i] == q[i + 1];
      }
      assert Apart(p, q)[1..] == Apart(p[1..], q[1..]);
      MatchedApartHasFewerLiterals(p[1..], q[1..]);
    } else if q != [] {
      assert |q| == 1 && q[1..] == [];
    }
  }

  /** A pattern whose every path another one matches too is at least as specific. */
  lemma SpecificityRespectsInclusion(u: Unicode, p: PathPattern, q: PathPattern)
    requires u.Lawful() && WellFormed(u, p) && WellFormed(u, q)
    requires IncludedIn(u, p, q)
    ensures p.Specificity() >= q.Specificity()
  {
    var x := ApartIsValid(u, p, q.segments);
    assert q.Accepts(x);
    assert RestOnlyLast(q.segments);
    MatchedApartHasFewerLiterals(p.segments, q.segments);
  }

  /** The load-time test for the reserved prefix finds exactly the patterns confined to it. */
  lemma NamesReservedPrefixIff(u: Unicode, p: PathPattern)
    requires u.Lawful() && WellFormed(u, p)
    ensures p.NamesReservedPrefix()
            <==> forall x :: IsValidPath(u, x) && p.Accepts(x) ==> x.IsReserved()
  {
    var x := ApartIsValid(u, p, []);
    assert x.IsReserved() ==> p.NamesReservedPrefix();
  }

  /** A pattern has a wildcard exactly when it matches two different paths. */
  lemma HasWildcardIff(u: Unicode, p: PathPattern)
    requires u.Lawful() && WellFormed(u, p)
    ensures p.HasWildcard()
            <==> exists x, y :: IsValidPath(u, x) && IsValidPath(u, y) && x != y && p.Accepts(x) && p.Accepts(y)
    ensures p.HasWildcard() <==> p.Specificity() < |p.segments|
  {
    WildcardIffFewerLiterals(p.segments);
    if p.HasWildcard() {
      var i :| 0 <= i < |p.segments| && !p.segments[i].Literal?;
      var x := ApartIsValid(u, p, []);
      var others := seq(|p.segments|, (_: nat) => Literal("a"));
      var y := ApartIsValid(u, p, others);
      ApartAt(p.segments, [], i);
      ApartAt(p.segments, others, i);
      assert x.Segments()[i] != y.Segments()[i];
    }
    forall x, y | !p.HasWildcard() && p.Accepts(x) && p.Accepts(y) ensures x == y {
      LiteralsMatchOnce(p.segments, x.Segments(), y.Segments());
      SameSegmentsSameText(x, y);
    }
  }

  lemma {:induction false} ApartAt(p: seq<Segment>, q: seq<Segment>, i: nat)
    requires i < |p| && !p[i].Literal?
    ensures Apart(p, q)[i] == if i < |q| && q[i] == Literal("a") then "b" else "a"
  {
    if i > 0 {
      ApartAt(p[1..], Tail(q), i - 1);
    }
  }

  lemma {:induction false} WildcardIffFewerLiterals(segments: seq<Segment>)
    ensures (exists s :: s in segments && !s.Literal?) <==> CountLiterals(segments) < |segments|
    ensures CountLiterals(segments) <= |segments|
  {
    if segments != [] {
      WildcardIffFewerLiterals(segments[1..]);
      assert forall s :: s in segments <==> s == segments[0] || s in segments[1..];
    }
  }

  lemma {:induction false} LiteralsMatchOnce(segments: seq<Segment>, x: seq<string>, y: seq<string>)
    requires forall s :: s in segments ==> s.Literal?
    requires MatchesSegments(segments, x) && MatchesSegments(segments, y)
    ensures x == y
  {
    if segments != [] {
      assert segments[0] in segments;
      assert forall s :: s in segments[1..] ==> s in segments;
      LiteralsMatchOnce(segments[1..], x[1..], y[1..]);
      assert x == [x[0]] + x[1..] && y == [y[0]] + y[1..];
    }
  }

  // ----- which texts are refused

  /** Why one segment of a pattern is refused. */
  lemma PartRefusedIff(u: Unicode, part: string, isLast: bool)
    ensures var r := ParseSegment(u, part, isLast);
            && (r == Err(TrailingMultiWildcardOnly) <==> part == "**" && !isLast)
            && (r == Err(PartialWildcard(part)) <==>
                  part != "*" && part != "**" && InspectSegment(u, part).None? && '*' in part)
            && (r.Err? && r.error.BadPatternSegment? <==>
                  part != "*" && part != "**" && InspectSegment(u, part).Some?)
            && (r.Err? && r.error.BadPatternSegment? ==>
                  r.error == BadPatternSegment(part, InspectSegment(u, part).value))
            && (r == Ok(One) <==> part == "*")
            && (r == Ok(Rest) <==> part == "**" && isLast)
  {
  }

  /** The segment at `k` is refused with this error, and none before it is refused. */
  predicate PartRefusedFirstAt(u: Unicode, raw: seq<string>, k: nat, e: PatternError) {
    && k < |raw| && ParseSegment(u, raw[k], k == |raw| - 1) == Err(e)
    && forall j :: 0 <= j < k ==> ParseSegment(u, raw[j], false).Ok?
  }

  lemma {:induction false} FirstRefusedPartIsNamed(u: Unicode, raw: seq<string>, k: nat, e: PatternError)
    requires PartRefusedFirstAt(u, raw, k, e)
    ensures ParseSegments(u, raw) == Err(e)
  {
    if k > 0 {
      assert ParseSegment(u, raw[0], false).Ok?;
      FirstRefusedPartIsNamed(u, raw[1..], k - 1, e);
    }
  }

  lemma {:induction false} NamedPartIsFirstRefused(u: Unicode, raw: seq<string>) returns (k: nat)
    requires ParseSegments(u, raw).Err?
    ensures PartRefusedFirstAt(u, raw, k, ParseSegments(u, raw).error)
  {
    if ParseSegment(u, raw[0], |raw| == 1).Err? {
      k := 0;
    } else {
      var rest := NamedPartIsFirstRefused(u, raw[1..]);
      k := rest + 1;
    }
  }

  /** Which error a refusal names: the empty text, then the length, then the first refused segment. */
  lemma PatternRefusedIff(u: Unicode, input: string, e: PatternError)
    ensures var text := u.nfc(input);
            ParsePattern(u, input) == Err(e) <==>
            || (text == "" && e == NoPattern)
            || (text != "" && ByteLen(text) > 1024 && e == PatternTooLong(1024, ByteLen(text)))
            || (text != "" && ByteLen(text) <= 1024 && exists k :: PartRefusedFirstAt(u, Split(text, '/'), k, e))
  {
    var raw := Split(u.nfc(input), '/');
    if ParseSegments(u, raw).Err? {
      var k := NamedPartIsFirstRefused(u, raw);
    }
    forall k, f | PartRefusedFirstAt(u, raw, k, f) ensures ParseSegments(u, raw) == Err(f) {
      FirstRefusedPartIsNamed(u, raw, k, f);
    }
  }
}
