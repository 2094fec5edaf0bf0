/** Importing a `.env` file (crates/ciphr-cli/src/formats.rs). */
module DotenvFile {
  import opened Basics
  import opened Text
  import opened Path
  import opened EnvName
  import opened Export

  datatype DotenvProblem = NoEquals | UnusableName(reason: NameFault)
  datatype DotenvError = DotenvError(line: nat, problem: DotenvProblem)

  const EXPORT := "export "

  function WithoutExport(line: string): string {
    if EXPORT <= line then line[|EXPORT|..] else line
  }

  /** One layer of matching quotes removed. */
  function Unquote(value: string): string {
    if |value| >= 2 && value[0] == value[|value| - 1] && (value[0] == '"' || value[0] == '\'') then
      value[1..|value| - 1]
    else value
  }

  predicate IsSkipped(raw: string) {
    var line := Trim(raw);
    line == "" || line[0] == '#'
  }

  function ParseLine(raw: string): Result<Variable, DotenvProblem> {
    var line := Trim(WithoutExport(Trim(raw)));
    var equals := IndexOf(line, '=');
    if equals == |line| then Err(NoEquals)
    else
      match ParseName(Trim(line[..equals]))
      case Err(e) => Err(UnusableName(if e.NotAName? then e.reason else NameIsEmpty))
      case Ok(name) => Ok(Variable(name, Unquote(Trim(line[equals + 1..]))))
  }

  function ParseLines(lines: seq<string>, number: nat, entries: seq<Variable>): Result<seq<Variable>, DotenvError> {
    if lines == [] then Ok(entries)
    else if IsSkipped(lines[0]) then ParseLines(lines[1..], number + 1, entries)
    else
      match ParseLine(lines[0])
      case Err(problem) => Err(DotenvError(number, problem))
      case Ok(entry) => ParseLines(lines[1..], number + 1, entries + [entry])
  }

  function Parsed(text: string): Result<seq<Variable>, DotenvError> {
    ParseLines(Lines(text), 1, [])
  }

  method ParseDotenv(text: string) returns (r: Result<seq<Variable>, DotenvError>)
    ensures r == Parsed(text)
  {
    var lines := Lines(text);
    var entries: seq<Variable> := [];
    assert lines[0..] == lines;
    for index := 0 to |lines|
      invariant ParseLines(lines, 1, []) == ParseLines(lines[index..], index + 1, entries)
    {
      assert lines[index..][1..] == lines[index + 1..];
      if IsSkipped(lines[index]) {
        continue;
      }
      var entry := ParseLine(lines[index]);
      if entry.Err? {
        return Err(DotenvError(index + 1, entry.error));
      }
      entries := entries + [entry.value];
    }
    return Ok(entries);
  }

  // ----- one rendered line

  lemma {:induction false} EscapedChangesQuotes(value: string)
    ensures |Escaped(value)| >= |value|
    ensures Escaped(value) == value <==> '\'' !in value
    ensures '\'' in value ==> |Escaped(value)| > |value|
    ensures '\n' in Escaped(value) <==> '\n' in value
  {
    if value != [] {
      EscapedChangesQuotes(value[1..]);
      assert value == [value[0]] + value[1..];
      var piece := if value[0] == '\'' then "'\\''" else [value[0]];
      assert '\n' in Escaped(value) <==> '\n' in piece || '\n' in Escaped(value[1..]);
      if value[0] != '\'' && Escaped(value) == value {
        assert Escaped(value)[1..] == Escaped(value[1..]);
      }
    }
  }

  lemma NameCharIsNotSpace(c: char)
    requires IsNameChar(c)
    ensures !IsWhitespace(c) && c != '#' && c != '=' && c != '\n'
  {
  }

  lemma DifferentAt(prefix: string, s: string, i: nat)
    requires i < |prefix| && i < |s| && prefix[i] != s[i]
    ensures !(prefix <= s)
  {
  }

  lemma LineHasNoExport(name: string, tail: string)
    requires IsName(name)
    ensures WithoutExport(name + ['='] + tail) == name + ['='] + tail
  {
    var line, i := name + ['='] + tail, if |name| > 6 then 6 else |name|;
    assert line[i] != EXPORT[i] by {
      assert i < |name| ==> line[i] == name[i] && name[i] in name;
    }
    DifferentAt(EXPORT, line, i);
  }

  lemma ParseLineOutcome(line: string, name: string, quoted: string)
    requires IsName(name) && Trim(line) == line && WithoutExport(line) == line
    requires line == name + ['='] + quoted && Trim(name) == name && Trim(quoted) == quoted
    ensures ParseLine(line) == Ok(Variable(name, Unquote(quoted)))
  {
    assert line[..|name|] == name && line[|name| + 1..] == quoted;
    IndexOfIs(line, '=', |name|);
    ParseNameIff(name);
  }

  lemma TrimOfName(name: string)
    requires IsName(name)
    ensures Trim(name) == name && !IsWhitespace(name[0]) && name[0] != '#'
  {
    assert name[0] in name && name[|name| - 1] in name;
    NameCharIsNotSpace(name[0]);
    NameCharIsNotSpace(name[|name| - 1]);
    TrimKeeps(name);
  }

  lemma QuotedIsTrimmed(value: string)
    ensures var quoted := Quoted(value);
            Trim(quoted) == quoted && Unquote(quoted) == Escaped(value) && |quoted| > 1 && quoted[|quoted| - 1] == '\''
  {
    var quoted := Quoted(value);
    assert quoted[0] == '\'' == quoted[|quoted| - 1];
    TrimKeeps(quoted);
    assert quoted[1..|quoted| - 1] == Escaped(value);
  }

  /** A rendered line gives back its name, and its value as it stands between the quotes. */
  lemma ParseRenderedLine(name: string, value: string)
    requires IsName(name)
    ensures var line := DotenvLine(name, value);
            !IsSkipped(line) && ParseLine(line) == Ok(Variable(name, Escaped(value)))
  {
    var line, quoted := DotenvLine(name, value), Quoted(value);
    assert line == name + ['='] + quoted;
    TrimOfName(name);
    QuotedIsTrimmed(value);
    assert line[0] == name[0] && line[|line| - 1] == quoted[|quoted| - 1];
    TrimKeeps(line);
    LineHasNoExport(name, quoted);
    ParseLineOutcome(line, name, quoted);
  }

  lemma RenderedLineIsPlain(name: string, value: string)
    requires IsName(name) && '\n' !in value
    ensures IsPlainLine(DotenvLine(name, value))
  {
    var line := DotenvLine(name, value);
    EscapedChangesQuotes(value);
    assert line == name + "=" + Quoted(value) && line[|line| - 1] == '\'';
    assert forall c :: c in line ==> c in name || c == '=' || c == '\'' || c in Escaped(value);
  }

  // ----- a rendered file without line breaks in its values

  function EscapedVariables(variables: seq<Variable>): (r: seq<Variable>)
    ensures |r| == |variables|
    ensures forall i :: 0 <= i < |variables| ==> r[i] == Variable(variables[i].name, Escaped(variables[i].value))
  {
    Map((v: Variable) => Variable(v.name, Escaped(v.value)), variables)
  }

  lemma {:induction false} ParseFrom(
    secrets: seq<Exported>, names: seq<string>, escaped: seq<Variable>, i: nat, number: nat, entries: seq<Variable>)
    requires i <= |secrets| == |names| == |escaped|
    requires forall j :: 0 <= j < |names| ==>
               && IsName(names[j]) && '\n' !in secrets[j].value
               && escaped[j] == Variable(names[j], Escaped(secrets[j].value))
    ensures ParseLines(Lines(DotenvFrom(secrets, names, i)), number, entries) == Ok(entries + escaped[i..])
    decreases |secrets| - i
  {
    if i == |secrets| {
      assert escaped[i..] == [] && entries + [] == entries;
    } else {
      var line, rest := DotenvLine(names[i], secrets[i].value), DotenvFrom(secrets, names, i + 1);
      RenderedLineIsPlain(names[i], secrets[i].value);
      LinesOfOne(line, rest);
      ParseRenderedLine(names[i], secrets[i].value);
      var lines := Lines(DotenvFrom(secrets, names, i));
      assert lines == [line] + Lines(rest) && lines[1..] == Lines(rest);
      ParseFrom(secrets, names, escaped, i + 1, number + 1, entries + [escaped[i]]);
      SuffixStep(escaped, i);
      Regroup(entries, [escaped[i]], escaped[i + 1..]);
    }
  }

  /** The importer takes off the outer quotes of an export and leaves everything between them. */
  lemma ImportOfExport(secrets: seq<Exported>)
    requires Dotenv(secrets).Ok? && forall i :: 0 <= i < |secrets| ==> '\n' !in secrets[i].value
    ensures Parsed(Dotenv(secrets).value) == Ok(EscapedVariables(VariablesOf(secrets)))
  {
    NamesAreVariables(secrets);
    var escaped := EscapedVariables(VariablesOf(secrets));
    ParseFrom(secrets, AssignNames(PathsOf(secrets), []).value, escaped, 0, 1, []);
    assert [] + escaped[0..] == escaped;
  }

  // ----- values that span lines

  lemma {:induction false} TrimStartKeepsChars(s: string)
    ensures forall c :: c in TrimStart(s) ==> c in s
  {
    if s != [] && IsWhitespace(s[0]) {
      TrimStartKeepsChars(s[1..]);
    }
  }

  lemma {:induction false} TrimEndKeepsChars(s: string)
    ensures forall c :: c in TrimEnd(s) ==> c in s
  {
    if s != [] && IsWhitespace(s[|s| - 1]) {
      TrimEndKeepsChars(s[..|s| - 1]);
    }
  }

  lemma TrimKeepsChars(s: string)
    ensures forall c :: c in Trim(s) ==> c in s
  {
    TrimStartKeepsChars(s);
    TrimEndKeepsChars(TrimStart(s));
  }

  lemma ParsedValueHasNoBreak(raw: string)
    requires '\n' !in raw && ParseLine(raw).Ok?
    ensures '\n' !in ParseLine(raw).value.value
  {
    var stripped := WithoutExport(Trim(raw));
    var line := Trim(stripped);
    var equals := IndexOf(line, '=');
    TrimKeepsChars(raw);
    TrimKeepsChars(stripped);
    var value := Trim(line[equals + 1..]);
    TrimKeepsChars(line[equals + 1..]);
    assert forall c :: c in stripped ==> c in Trim(raw);
    assert forall c :: c in line[equals + 1..] ==> c in line;
    assert forall c :: c in Unquote(value) ==> c in value;
  }

  lemma {:induction false} ParsedValuesHaveNoBreak(lines: seq<string>, number: nat, entries: seq<Variable>)
    requires forall line :: line in lines ==> '\n' !in line
    requires forall v :: v in entries ==> '\n' !in v.value
    requires ParseLines(lines, number, entries).Ok?
    ensures forall v :: v in ParseLines(lines, number, entries).value ==> '\n' !in v.value
    decreases |lines|
  {
    if lines != [] {
      assert lines[0] in lines && forall line :: line in lines[1..] ==> line in lines;
      if IsSkipped(lines[0]) {
        ParsedValuesHaveNoBreak(lines[1..], number + 1, entries);
      } else {
        ParsedValueHasNoBreak(lines[0]);
        ParsedValuesHaveNoBreak(lines[1..], number + 1, entries + [ParseLine(lines[0]).value]);
      }
    }
  }

  // ----- the round trip

  /** An export comes back through the importer unchanged exactly when no value has a single quote or a line break. */
  lemma RoundTripIff(secrets: seq<Exported>)
    requires Dotenv(secrets).Ok?
    ensures Parsed(Dotenv(secrets).value) == Ok(VariablesOf(secrets))
            <==> forall i :: 0 <= i < |secrets| ==> '\'' !in secrets[i].value && '\n' !in secrets[i].value
  {
    var variables := VariablesOf(secrets);
    assert forall i :: 0 <= i < |secrets| ==> variables[i].value == secrets[i].value;
    if i :| 0 <= i < |secrets| && '\n' in secrets[i].value {
      assert variables[i] in variables && '\n' in variables[i].value;
      if Parsed(Dotenv(secrets).value).Ok? {
        LinesHaveNoBreak(Dotenv(secrets).value);
        ParsedValuesHaveNoBreak(Lines(Dotenv(secrets).value), 1, []);
      }
    } else {
      ImportOfExport(secrets);
      SameWhenEscaped(variables);
    }
  }

  lemma SameWhenEscaped(variables: seq<Variable>)
    ensures EscapedVariables(variables) == variables <==> forall i :: 0 <= i < |variables| ==> '\'' !in variables[i].value
  {
    var escaped := EscapedVariables(variables);
    forall i | 0 <= i < |variables| ensures escaped[i] == variables[i] <==> '\'' !in variables[i].value {
      EscapedChangesQuotes(variables[i].value);
    }
    if i :| 0 <= i < |variables| && '\'' in variables[i].value {
      assert escaped[i] != variables[i];
    }
  }

  lemma AloneAtTheRoot(value: string)
    ensures var secrets := [Exported(SecretPath("K"), value)];
            Dotenv(secrets).Ok? && VariablesOf(secrets) == [Variable("K", value)]
  {
    var path := SecretPath("K");
    assert IndexOf("K", '/') == 1;
    assert path.Segments() == ["K"] && LastSegment(path) == "K";
    var secrets := [Exported(path, value)];
    assert PathsOf(secrets) == [path];
    assert Map(LastSegment, [path]) == ["K"];
    assert Nameable([path]);
    AssignedIff([path]);
    assert VariablesOf(secrets)[0] == Variable("K", value);
  }

  lemma OneQuoteEscaped(variables: seq<Variable>)
    requires variables == [Variable("K", "'")]
    ensures EscapedVariables(variables) == [Variable("K", "'\\''")]
  {
    assert Escaped("'") == "'\\''" + Escaped("'"[1..]);
    assert "'"[1..] == "" && "'\\''" + "" == "'\\''";
  }

  /** One value that the importer changes: the escape of a single quote is not undone. */
  lemma QuoteDoesNotSurvive() returns (secrets: seq<Exported>)
    ensures secrets == [Exported(SecretPath("K"), "'")]
    ensures Dotenv(secrets).Ok? && VariablesOf(secrets) == [Variable("K", "'")]
    ensures Parsed(Dotenv(secrets).value) == Ok([Variable("K", "'\\''")])
  {
    secrets := [Exported(SecretPath("K"), "'")];
    AloneAtTheRoot("'");
    ImportOfExport(secrets) by {
      assert '\n' !in secrets[0].value;
    }
    OneQuoteEscaped(VariablesOf(secrets));
  }

  // ----- what each kind of line gives

  /** A line is passed over exactly if it is blank or its first character that is no space is a number sign. */
  lemma {:induction false} SkippedIff(raw: string)
    ensures IsSkipped(raw) <==> (forall c :: c in raw ==> IsWhitespace(c)) || IsComment(raw)
  {
    TrimStartIs(raw);
    var start := TrimStart(raw);
    if start != "" {
      TrimEndKeepsHead(start);
    } else {
      assert TrimEnd("") == "";
    }
  }

  /** The first character that is no space is a number sign. */
  predicate IsComment(raw: string) {
    exists i :: 0 <= i < |raw| && raw[i] == '#' && forall j :: 0 <= j < i ==> IsWhitespace(raw[j])
  }

  lemma {:induction false} TrimStartIs(s: string)
    ensures TrimStart(s) == "" <==> forall c :: c in s ==> IsWhitespace(c)
    ensures TrimStart(s) != "" ==> !IsWhitespace(TrimStart(s)[0])
    ensures TrimStart(s) != "" && TrimStart(s)[0] == '#' <==> IsComment(s)
  {
    if s != "" && IsWhitespace(s[0]) {
      var rest := s[1..];
      TrimStartIs(rest);
      assert forall c :: c in s <==> c == s[0] || c in rest;
      if IsComment(rest) {
        var i :| 0 <= i < |rest| && rest[i] == '#' && forall j :: 0 <= j < i ==> IsWhitespace(rest[j]);
        assert s[i + 1] == '#' && forall j :: 0 <= j < i + 1 ==> IsWhitespace(s[j]);
      }
      if IsComment(s) {
        var i :| 0 <= i < |s| && s[i] == '#' && forall j :: 0 <= j < i ==> IsWhitespace(s[j]);
        assert i > 0 && rest[i - 1] == '#' && forall j :: 0 <= j < i - 1 ==> rest[j] == s[j + 1];
      }
    } else if s != "" {
      assert s[0] in s;
      if s[0] == '#' {
        assert IsComment(s);
      }
    }
  }

  lemma {:induction false} TrimEndKeepsHead(s: string)
    requires s != "" && !IsWhitespace(s[0])
    ensures TrimEnd(s) != "" && TrimEnd(s)[0] == s[0]
  {
    if |s| > 1 && IsWhitespace(s[|s| - 1]) {
      TrimEndKeepsHead(s[..|s| - 1]);
    }
  }

  /** A value of which quotes of one kind are taken off, or which stands as it is. */
  lemma UnquotedIs(v: string)
    ensures Unquote("\"" + v + "\"") == v
    ensures Unquote("'" + v + "'") == v
    ensures |v| < 2 || v[0] != v[|v| - 1] || (v[0] != '"' && v[0] != '\'') ==> Unquote(v) == v
  {
    var double, single := "\"" + v + "\"", "'" + v + "'";
    assert double[1..|double| - 1] == v && single[1..|single| - 1] == v;
  }

  /** An assignment gives its name and its value without one layer of quotes; `export ` before it changes nothing. */
  lemma AssignmentGives(name: string, value: string)
    requires IsName(name) && Trim(value) == value && value != ""
    ensures ParseLine(name + "=" + value) == Ok(Variable(name, Unquote(value)))
    ensures ParseLine("export " + name + "=" + value) == Ok(Variable(name, Unquote(value)))
  {
    var line := name + ['='] + value;
    assert name + "=" + value == line;
    TrimOfName(name);
    TrimmedEnds(value);
    assert line[0] == name[0] && line[|line| - 1] == value[|value| - 1];
    TrimKeeps(line);
    LineHasNoExport(name, value);
    ParseLineOutcome(line, name, value);
    ExportedLine(name, value, line);
  }

  lemma ExportedLine(name: string, value: string, line: string)
    requires IsName(name) && line == name + ['='] + value && value != "" && !IsWhitespace(value[|value| - 1])
    requires Trim(line) == line && WithoutExport(line) == line
    ensures ParseLine("export " + name + "=" + value) == ParseLine(line)
  {
    var exported := "export " + line;
    assert "export " + name + "=" + value == exported;
    assert exported[0] == 'e' && exported[|exported| - 1] == value[|value| - 1];
    TrimKeeps(exported);
    assert EXPORT <= exported && exported[|EXPORT|..] == line;
  }

  lemma {:induction false} TrimmedEnds(s: string)
    requires Trim(s) == s && s != ""
    ensures !IsWhitespace(s[|s| - 1])
  {
    TrimStartShortens(s);
    TrimEndEnds(TrimStart(s));
  }

  lemma {:induction false} TrimStartShortens(s: string)
    ensures |TrimStart(s)| <= |s|
  {
    if s != "" && IsWhitespace(s[0]) {
      TrimStartShortens(s[1..]);
    }
  }

  lemma {:induction false} TrimEndEnds(s: string)
    ensures |TrimEnd(s)| <= |s|
    ensures TrimEnd(s) != "" ==> !IsWhitespace(TrimEnd(s)[|TrimEnd(s)| - 1])
  {
    if s != "" && IsWhitespace(s[|s| - 1]) {
      TrimEndEnds(s[..|s| - 1]);
    }
  }

  /** A line without an equals sign is the fault that it is reported as. */
  lemma NoEqualsIff(raw: string)
    ensures ParseLine(raw) == Err(NoEquals) <==> '=' !in Trim(WithoutExport(Trim(raw)))
  {
    var line := Trim(WithoutExport(Trim(raw)));
    var equals := IndexOf(line, '=');
    if equals == |line| {
      assert line[..equals] == line;
    }
  }

  // ----- which line a refusal names

  /** The line is passed over or gives an entry. */
  predicate IsReadable(line: string) {
    IsSkipped(line) || ParseLine(line).Ok?
  }

  /** The entries of the lines that give one. */
  function EntriesOf(lines: seq<string>): seq<Variable> {
    if lines == [] then []
    else
      (if !IsSkipped(lines[0]) && ParseLine(lines[0]).Ok? then [ParseLine(lines[0]).value] else [])
      + EntriesOf(lines[1..])
  }

  lemma ReadableLineGives(lines: seq<string>, number: nat, entries: seq<Variable>) returns (first: seq<Variable>)
    requires lines != [] && IsReadable(lines[0])
    ensures ParseLines(lines, number, entries) == ParseLines(lines[1..], number + 1, entries + first)
    ensures EntriesOf(lines) == first + EntriesOf(lines[1..])
  {
    first := if IsSkipped(lines[0]) then [] else [ParseLine(lines[0]).value];
    assert entries + [] == entries;
  }

  predicate AllReadable(lines: seq<string>) {
    forall i :: 0 <= i < |lines| ==> IsReadable(lines[i])
  }

  lemma {:induction false} ReadableLinesGive(lines: seq<string>, number: nat, entries: seq<Variable>)
    requires AllReadable(lines)
    ensures ParseLines(lines, number, entries) == Ok(entries + EntriesOf(lines))
    decreases |lines|
  {
    if lines == [] {
      assert entries + [] == entries;
    } else {
      var first := ReadableLineGives(lines, number, entries);
      ReadableLinesGive(lines[1..], number + 1, entries + first);
      Regroup(entries, first, EntriesOf(lines[1..]));
    }
  }

  /** The line at `k` is the first that cannot be read. */
  predicate UnreadableFirstAt(lines: seq<string>, k: nat) {
    k < |lines| && !IsReadable(lines[k]) && forall i :: 0 <= i < k ==> IsReadable(lines[i])
  }

  lemma UnreadableLineEnds(lines: seq<string>, number: nat, entries: seq<Variable>, problem: DotenvProblem)
    requires lines != [] && !IsReadable(lines[0]) && ParseLine(lines[0]) == Err(problem)
    ensures ParseLines(lines, number, entries) == Err(DotenvError(number, problem))
  {
  }

  lemma LaterUnreadable(lines: seq<string>, k: nat) returns (rest: seq<string>)
    requires k > 0 && UnreadableFirstAt(lines, k)
    ensures rest == lines[1..] && UnreadableFirstAt(rest, k - 1) && rest[k - 1] == lines[k] && IsReadable(lines[0])
  {
    rest := lines[1..];
    assert forall i :: 0 <= i < |rest| ==> rest[i] == lines[i + 1];
  }

  /** Reading on from the line after a readable one. */
  lemma ReadsOn(lines: seq<string>, number: nat, entries: seq<Variable>, e: DotenvError) returns (first: seq<Variable>)
    requires lines != [] && IsReadable(lines[0])
    ensures ParseLines(lines[1..], number + 1, entries + first) == Err(e) ==> ParseLines(lines, number, entries) == Err(e)
  {
    first := ReadableLineGives(lines, number, entries);
  }

  lemma {:induction false} UnreadableLineIsNamed(
    lines: seq<string>, number: nat, entries: seq<Variable>, k: nat, problem: DotenvProblem, e: DotenvError)
    requires UnreadableFirstAt(lines, k) && ParseLine(lines[k]) == Err(problem)
    requires e == DotenvError(number + k, problem)
    ensures ParseLines(lines, number, entries) == Err(e)
    decreases k
  {
    if k == 0 {
      UnreadableLineEnds(lines, number, entries, problem);
    } else {
      var rest := LaterUnreadable(lines, k);
      var first := ReadsOn(lines, number, entries, e);
      UnreadableLineIsNamed(rest, number + 1, entries + first, k - 1, problem, e);
    }
  }

  /** A file of readable lines gives their entries in order. */
  lemma FileGivesEntries(text: string)
    requires AllReadable(Lines(text))
    ensures Parsed(text) == Ok(EntriesOf(Lines(text)))
  {
    ReadableLinesGive(Lines(text), 1, []);
    assert [] + EntriesOf(Lines(text)) == EntriesOf(Lines(text));
  }

  /** Any other file is refused with its first unreadable line, counted from one, and what is wrong with it. */
  lemma FileNamesLine(text: string, k: nat) returns (problem: DotenvProblem)
    requires UnreadableFirstAt(Lines(text), k)
    ensures Parsed(text) == Err(DotenvError(k + 1, problem)) && ParseLine(Lines(text)[k]) == Err(problem)
  {
    problem := ParseLine(Lines(text)[k]).error;
    UnreadableLineIsNamed(Lines(text), 1, [], k, problem, DotenvError(k + 1, problem));
  }
}
