/** Secret paths and their one normalization (crates/ciphr-core/src/path.rs). */
module Path {
  import opened Basics
  import opened Text

  const MAX_PATH_LEN := 1024
  const MAX_SEGMENT_LEN := 128
  const RESERVED_PREFIX := "sys"

  /** The two tables of the Unicode standard that the code consults. */
  datatype Unicode = Unicode(nfc: string -> string, isAlphanumeric: char -> bool) {
    /**
     * NFC is idempotent, is decided segment by segment because `/` never combines, and leaves an
     * ASCII letter alone; ASCII letters are alphanumeric.
     */
    ghost predicate Lawful() {
      && (forall s {:trigger nfc(nfc(s))} :: nfc(nfc(s)) == nfc(s))
      && (forall s {:trigger Split(s, '/')} :: nfc(s) == s <==> forall part :: part in Split(s, '/') ==> nfc(part) == part)
      && (forall c :: 'a' <= c <= 'z' ==> nfc([c]) == [c] && isAlphanumeric(c))
    }
  }

  /** Bytes of the UTF-8 form. */
  function ByteLen(s: string): nat {
    if s == [] then 0
    else
      (if s[0] < '\U{80}' then 1 else if s[0] < '\U{800}' then 2 else if s[0] < '\U{10000}' then 3 else 4)
      + ByteLen(s[1..])
  }

  predicate IsControl(c: char) {
    c <= '\U{1F}' || '\U{7F}' <= c <= '\U{9F}'
  }

  predicate IsAllowed(u: Unicode, c: char) {
    u.isAlphanumeric(c) || c == '-' || c == '_' || c == '.' || c == '*'
  }

  datatype SegmentProblem = Empty | TooLong(found: nat) | Relative | Control | Whitespace | Disallowed(c: char)

  function InspectChars(u: Unicode, segment: string): Option<SegmentProblem> {
    if segment == [] then None
    else if IsControl(segment[0]) then Some(Control)
    else if IsWhitespace(segment[0]) then Some(Whitespace)
    else if !IsAllowed(u, segment[0]) then Some(Disallowed(segment[0]))
    else InspectChars(u, segment[1..])
  }

  /** Everything about a segment except wildcards. */
  function InspectSegment(u: Unicode, segment: string): Option<SegmentProblem> {
    if segment == "" then Some(Empty)
    else if ByteLen(segment) > MAX_SEGMENT_LEN then Some(TooLong(ByteLen(segment)))
    else if segment == "." || segment == ".." then Some(Relative)
    else InspectChars(u, segment)
  }

  datatype PathError =
    | EmptyPath
    | PathTooLong(limit: nat, found: nat)
    | BadSegment(segment: string, problem: SegmentProblem)
    | Wildcard

  function ValidateSegment(u: Unicode, segment: string): Option<PathError> {
    match InspectSegment(u, segment)
    case Some(problem) => Some(BadSegment(segment, problem))
    case None => if '*' in segment then Some(Wildcard) else None
  }

  function ValidateSegments(u: Unicode, segments: seq<string>): Option<PathError> {
    if segments == [] then None
    else if ValidateSegment(u, segments[0]).Some? then ValidateSegment(u, segments[0])
    else ValidateSegments(u, segments[1..])
  }

  datatype SecretPath = SecretPath(text: string) {
    function Segments(): (segments: seq<string>)
      ensures segments != []
    {
      Split(text, '/')
    }

    /** The byte test: equal, or a longer text with a separator where the prefix ends. */
    predicate StartsWith(prefix: SecretPath) {
      text == prefix.text
      || (|text| > |prefix.text| && text[|prefix.text|] == '/' && prefix.text <= text)
    }

    predicate IsReserved() {
      Segments()[0] == RESERVED_PREFIX
    }
  }

  /** Normalization first, validation of the normalized form second. */
  function Parse(u: Unicode, input: string): Result<SecretPath, PathError> {
    var normalized := u.nfc(input);
    if normalized == "" then Err(EmptyPath)
    else if ByteLen(normalized) > MAX_PATH_LEN then Err(PathTooLong(MAX_PATH_LEN, ByteLen(normalized)))
    else
      match ValidateSegments(u, Split(normalized, '/'))
      case Some(e) => Err(e)
      case None => Ok(SecretPath(normalized))
  }

  lemma {:induction false} ValidateSegmentsIff(u: Unicode, segments: seq<string>)
    ensures ValidateSegments(u, segments).None? <==> forall s :: s in segments ==> ValidateSegment(u, s).None?
  {
    if segments != [] {
      ValidateSegmentsIff(u, segments[1..]);
      assert forall s :: s in segments <==> s == segments[0] || s in segments[1..];
    }
  }

  /** Segments that make a path: what every rule of the path language says about them. */
  ghost predicate IsPath(u: Unicode, segments: seq<string>) {
    && segments != []
    && (forall s :: s in segments ==> IsSegment(u, s))
    && ByteLen(Join(segments, '/')) <= MAX_PATH_LEN
  }

  predicate IsSegment(u: Unicode, s: string) {
    ValidateSegment(u, s).None? && u.nfc(s) == s && '/' !in s
  }

  /** The accepted paths are exactly the normal forms whose segments obey the rules. */
  lemma ParsedIff(u: Unicode, input: string)
    requires u.Lawful()
    ensures Parse(u, input).Ok? <==> IsPath(u, Split(u.nfc(input), '/'))
    ensures Parse(u, input).Ok? ==> Parse(u, input).value.text == u.nfc(input)
  {
    var text := u.nfc(input);
    var segments := Split(text, '/');
    ValidateSegmentsIff(u, segments);
    JoinOfSplit(text, '/');
    assert u.nfc(text) == text;
    if text == "" {
      assert segments == [""];
      assert ValidateSegment(u, "") == Some(BadSegment("", Empty));
      assert "" in segments;
    }
  }

  /** The segment at `k` is refused with this error, and none before it is refused. */
  predicate RefusedFirstAt(u: Unicode, segments: seq<string>, k: nat, e: PathError) {
    && k < |segments| && ValidateSegment(u, segments[k]) == Some(e)
    && forall j :: 0 <= j < k ==> ValidateSegment(u, segments[j]).None?
  }

  lemma {:induction false} FirstRefusedIsNamed(u: Unicode, segments: seq<string>, k: nat, e: PathError)
    requires RefusedFirstAt(u, segments, k, e)
    ensures ValidateSegments(u, segments) == Some(e)
  {
    if k > 0 {
      assert ValidateSegment(u, segments[0]).None?;
      FirstRefusedIsNamed(u, segments[1..], k - 1, e);
    }
  }

  lemma {:induction false} NamedIsFirstRefused(u: Unicode, segments: seq<string>) returns (k: nat)
    requires ValidateSegments(u, segments).Some?
    ensures RefusedFirstAt(u, segments, k, ValidateSegments(u, segments).value)
  {
    if ValidateSegment(u, segments[0]).Some? {
      k := 0;
    } else {
      var rest := NamedIsFirstRefused(u, segments[1..]);
      k := rest + 1;
    }
  }

  /** Which error a refusal names: the empty text, then the length, then the first refused segment. */
  lemma RefusedIff(u: Unicode, input: string, e: PathError)
    ensures var text := u.nfc(input);
            Parse(u, input) == Err(e) <==>
            || (text == "" && e == EmptyPath)
            || (text != "" && ByteLen(text) > 1024 && e == PathTooLong(1024, ByteLen(text)))
            || (text != "" && ByteLen(text) <= 1024 && exists k :: RefusedFirstAt(u, Split(text, '/'), k, e))
  {
    var segments := Split(u.nfc(input), '/');
    if ValidateSegments(u, segments).Some? {
      var k := NamedIsFirstRefused(u, segments);
    }
    forall k, f | RefusedFirstAt(u, segments, k, f) ensures ValidateSegments(u, segments) == Some(f) {
      FirstRefusedIsNamed(u, segments, k, f);
    }
  }

  /**
   * Why a segment is refused: that it is empty, longer than 128 bytes, a dot or two, or holds a
   * character that does not belong.
   */
  lemma SegmentRefusedIff(u: Unicode, segment: string)
    ensures var e := ValidateSegment(u, segment);
            && (e == Some(BadSegment(segment, Empty)) <==> segment == "")
            && (e == Some(BadSegment(segment, TooLong(ByteLen(segment)))) <==>
                  segment != "" && ByteLen(segment) > 128)
            && (e == Some(BadSegment(segment, Relative)) <==> segment == "." || segment == "..")
            && (e == Some(Wildcard) <==>
                  && segment != "" && ByteLen(segment) <= 128 && segment != "." && segment != ".."
                  && (forall c :: c in segment ==> IsClean(u, c)) && '*' in segment)
            && (e == None <==>
                  && segment != "" && ByteLen(segment) <= 128 && segment != "." && segment != ".."
                  && (forall c :: c in segment ==> IsClean(u, c)) && '*' !in segment)
  {
    AllCleanIff(u, segment);
    if InspectChars(u, segment).Some? {
      ComplaintIsAboutCharacter(u, segment);
    }
    assert ByteLen(".") == 1 && ByteLen("..") == 2 by {
      assert ".."[1..] == ".";
    }
  }

  lemma {:induction false} ComplaintIsAboutCharacter(u: Unicode, segment: string)
    requires InspectChars(u, segment).Some?
    ensures var problem := InspectChars(u, segment).value;
            problem.Control? || problem.Whitespace? || problem.Disallowed?
  {
    if IsClean(u, segment[0]) {
      ComplaintIsAboutCharacter(u, segment[1..]);
    }
  }

  /** A letter or a digit of any script, or one of four marks. */
  predicate IsClean(u: Unicode, c: char) {
    && !IsControl(c) && !IsWhitespace(c)
    && (u.isAlphanumeric(c) || c in "-_.*")
  }

  /** The first character that is not clean is the one complained about. */
  lemma {:induction false} FirstUncleanIsNamed(u: Unicode, segment: string, k: nat)
    requires k < |segment| && !IsClean(u, segment[k]) && forall j :: 0 <= j < k ==> IsClean(u, segment[j])
    ensures InspectChars(u, segment) == Some(
              if IsControl(segment[k]) then Control
              else if IsWhitespace(segment[k]) then Whitespace
              else Disallowed(segment[k]))
  {
    if k > 0 {
      assert IsClean(u, segment[0]);
      FirstUncleanIsNamed(u, segment[1..], k - 1);
    }
  }

  lemma {:induction false} AllCleanIff(u: Unicode, segment: string)
    ensures InspectChars(u, segment).None? <==> forall c :: c in segment ==> IsClean(u, c)
  {
    if segment != "" {
      AllCleanIff(u, segment[1..]);
      assert segment[0] in segment && forall c :: c in segment <==> c == segment[0] || c in segment[1..];
      assert InspectChars(u, segment).None? <==> IsClean(u, segment[0]) && InspectChars(u, segment[1..]).None?;
    }
  }

  /** A path that was parsed parses again, to itself. */
  lemma ParseIsIdempotent(u: Unicode, input: string)
    requires u.Lawful() && Parse(u, input).Ok?
    ensures Parse(u, Parse(u, input).value.text) == Parse(u, input)
  {
    assert u.nfc(u.nfc(input)) == u.nfc(input);
  }

  /** Any path segments are those of a parsed path. */
  lemma PathIsParsed(u: Unicode, segments: seq<string>)
    requires u.Lawful() && IsPath(u, segments)
    ensures var text := Join(segments, '/');
            Parse(u, text) == Ok(SecretPath(text)) && SecretPath(text).Segments() == segments
  {
    var text := Join(segments, '/');
    SplitOfJoin(segments, '/');
    assert u.nfc(text) == text;
    ParsedIff(u, text);
  }

  lemma SegmentsOfExtension(p: SecretPath, rest: string)
    ensures SecretPath(p.text + ['/'] + rest).Segments() == p.Segments() + Split(rest, '/')
  {
    SplitOfConcat(p.text, rest, '/');
  }

  /** A text is determined by its segments. */
  lemma SameSegmentsSameText(x: SecretPath, p: SecretPath)
    requires x.Segments() == p.Segments()
    ensures x == p
  {
    JoinOfSplit(x.text, '/');
    JoinOfSplit(p.text, '/');
  }

  lemma TextOfExtension(x: SecretPath, p: SecretPath, rest: seq<string>)
    requires rest != [] && x.Segments() == p.Segments() + rest
    ensures x.text == p.text + ['/'] + Join(rest, '/')
  {
    JoinOfSplit(x.text, '/');
    JoinOfSplit(p.text, '/');
    JoinOfConcat(p.Segments(), rest, '/');
  }

  /** The byte test is the test for a prefix of segments. */
  lemma StartsWithIff(x: SecretPath, p: SecretPath)
    ensures x.StartsWith(p) <==> p.Segments() <= x.Segments()
  {
    if x.StartsWith(p) && x.text != p.text {
      var rest := x.text[|p.text| + 1..];
      assert x.text == p.text + ['/'] + rest;
      SegmentsOfExtension(p, rest);
    }
    if p.Segments() <= x.Segments() {
      var rest := x.Segments()[|p.Segments()|..];
      if rest == [] {
        SameSegmentsSameText(x, p);
      } else {
        TextOfExtension(x, p, rest);
      }
    }
  }
}
