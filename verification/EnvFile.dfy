/**
 * The file that an Actions runner reads, and its standard output: what the two halves of
 * `render_actions_env` (crates/ciphr-export/src/lib.rs) mean to their reader.
 */
module EnvFile {
  import opened Basics
  import opened Text
  import opened EnvName
  import opened Export
  import Hex

  // ----- the reader

  /** The first index of `<<`, or the length. */
  function FindHeredoc(s: string): (i: nat)
    ensures i <= |s|
    ensures i < |s| ==> i + 1 < |s| && s[i] == '<' && s[i + 1] == '<'
    ensures forall j :: 0 <= j < i && j + 1 < |s| ==> !(s[j] == '<' && s[j + 1] == '<')
  {
    if s == [] then 0
    else if |s| > 1 && s[0] == '<' && s[1] == '<' then 0
    else 1 + FindHeredoc(s[1..])
  }

  /** The first line that is exactly `line`, or the number of lines. */
  function FindLine(lines: seq<string>, line: string): (i: nat)
    ensures i <= |lines|
  {
    if lines == [] || lines[0] == line then 0 else 1 + FindLine(lines[1..], line)
  }

  function Prepend(v: Variable, r: Option<seq<Variable>>): Option<seq<Variable>> {
    if r.Some? then Some([v] + r.value) else None
  }

  /**
   * A runner's reading of an environment file, line by line: `NAME=value`, or `NAME<<DELIMITER` and
   * everything up to the line that is the delimiter, by whichever of `=` and `<<` comes first.
   */
  function Read(lines: seq<string>): Option<seq<Variable>>
    decreases |lines|
  {
    if lines == [] then Some([])
    else
      var line, rest := lines[0], lines[1..];
      var equals, heredoc := IndexOf(line, '='), FindHeredoc(line);
      if line == "" then Read(rest)
      else if 0 < equals < heredoc then Prepend(Variable(line[..equals], line[equals + 1..]), Read(rest))
      else if 0 < heredoc < |line| - 2 && heredoc < equals then
        var end := FindLine(rest, line[heredoc + 2..]);
        if end == |rest| then None
        else
          Prepend(Variable(line[..heredoc], if end == 0 then "" else Join(rest[..end], '\n')), Read(rest[end + 1..]))
      else None
  }

  // ----- delimiters

  lemma {:induction false} LinesOfSplit(s: string, line: string)
    requires line in Split(s, '\n') && line != "" && line[|line| - 1] != '\r'
    ensures line in Lines(s)
  {
    var i := IndexOf(s, '\n');
    if i < |s| {
      if line == s[..i] {
        assert WithoutCarriageReturn(line) == line;
        assert line == Lines(s)[0];
      } else {
        LinesOfSplit(s[i + 1..], line);
        assert Lines(s)[1..] == Lines(s[i + 1..]);
      }
    } else {
      assert line == s && Lines(s) == [s];
    }
  }

  lemma CandidateIsPlain(name: string, bytes: seq<byte>)
    requires IsName(name) && |bytes| > 0
    ensures var c := Candidate(name, bytes);
            c != "" && '\n' !in c && '=' !in c && c[|c| - 1] != '\r'
  {
    var c, digits := Candidate(name, bytes), Hex.Encoded(bytes);
    assert c[|c| - 1] == digits[|digits| - 1] && digits[|digits| - 1] in digits;
    assert forall x :: x in "ciphr_" ==> IsNameChar(x);
    assert forall x :: x in c ==> x in "ciphr_" || x in name || x == '_' || x in digits;
    assert forall x :: x in c ==> IsNameChar(x);
  }

  lemma {:induction false} FindLineAfter(before: seq<string>, line: string, after: seq<string>)
    requires line !in before
    ensures FindLine(before + [line] + after, line) == |before|
  {
    if before == [] {
      assert before + [line] + after == [line] + after;
    } else {
      assert (before + [line] + after)[1..] == before[1..] + [line] + after;
      FindLineAfter(before[1..], line, after);
    }
  }

  // ----- one assignment

  lemma ReadOneLine(name: string, value: string, rest: string)
    requires IsName(name) && '\n' !in value
    ensures Read(Split(name + "=" + value + "\n" + rest, '\n')) == Prepend(Variable(name, value), Read(Split(rest, '\n')))
  {
    var line := name + "=" + value;
    SplitOfConcat(line, rest, '\n');
    SplitOfOne(line, '\n');
    var lines := Split(line + ['\n'] + rest, '\n');
    assert lines == [line] + Split(rest, '\n') && lines[1..] == Split(rest, '\n');
    NameBefore(name, '=', value);
    IndexOfIs(line, '=', |name|) by { assert line[..|name|] == name; }
    assert line[..|name|] == name && line[|name| + 1..] == value;
  }

  /** `<<` cannot start before the end of a name. */
  lemma NameBefore(name: string, c: char, tail: string)
    requires IsName(name)
    ensures var heredoc := FindHeredoc(name + [c] + tail);
            heredoc >= |name| && (c != '<' ==> heredoc > |name|)
  {
    var line := name + [c] + tail;
    forall j | 0 <= j < |name| ensures line[j] != '<' {
      assert line[j] == name[j] && name[j] in name;
    }
  }

  lemma ReadBlock(lines: seq<string>, name: string, delimiter: string, body: seq<string>, after: seq<string>)
    requires IsName(name) && delimiter != "" && '=' !in delimiter && body != [] && delimiter !in body
    requires lines == [name + "<<" + delimiter] + (body + [delimiter] + after)
    ensures Read(lines) == Prepend(Variable(name, Join(body, '\n')), Read(after))
  {
    var rest := body + [delimiter] + after;
    OpeningLine(name, delimiter);
    FindLineAfter(body, delimiter, after);
    assert lines[1..] == rest;
    assert rest[..|body|] == body && rest[|body| + 1..] == after;
  }

  lemma ReadHeredoc(name: string, value: string, delimiter: string, rest: string)
    requires IsName(name)
    requires delimiter != "" && '\n' !in delimiter && '=' !in delimiter && delimiter[|delimiter| - 1] != '\r'
    requires delimiter !in Lines(value)
    ensures Read(Split(name + "<<" + delimiter + "\n" + value + "\n" + delimiter + "\n" + rest, '\n'))
            == Prepend(Variable(name, value), Read(Split(rest, '\n')))
  {
    var opening := name + "<<" + delimiter;
    var text := opening + "\n" + value + "\n" + delimiter + "\n" + rest;
    var lines := Split(text, '\n');
    SplitHeredoc(opening, value, delimiter, rest) by {
      assert forall c :: c in opening ==> c in name || c == '<' || c in delimiter;
    }
    var body := Split(value, '\n');
    if delimiter in body {
      LinesOfSplit(value, delimiter);
    }
    JoinOfSplit(value, '\n');
    assert lines == [opening] + (body + [delimiter] + Split(rest, '\n'));
    ReadBlock(lines, name, delimiter, body, Split(rest, '\n'));
  }

  lemma OpeningLine(name: string, delimiter: string)
    requires IsName(name) && '=' !in delimiter
    ensures var opening := name + "<<" + delimiter;
            && FindHeredoc(opening) == |name| && IndexOf(opening, '=') == |opening|
            && opening[..|name|] == name && opening[|name| + 2..] == delimiter
  {
    var opening := name + "<<" + delimiter;
    assert opening == name + ['<'] + (['<'] + delimiter);
    NameBefore(name, '<', ['<'] + delimiter);
    assert opening[|name|] == '<' && opening[|name| + 1] == '<';
    assert IndexOf(opening, '=') < |opening| ==> '=' in opening;
    assert forall c :: c in opening ==> c in name || c == '<' || c in delimiter;
  }

  lemma SplitHeredoc(opening: string, value: string, delimiter: string, rest: string)
    requires '\n' !in opening && '\n' !in delimiter
    ensures Split(opening + "\n" + value + "\n" + delimiter + "\n" + rest, '\n')
            == [opening] + Split(value, '\n') + [delimiter] + Split(rest, '\n')
  {
    SplitOfOne(opening, '\n');
    SplitOfOne(delimiter, '\n');
    SplitOfConcat(opening, value, '\n');
    SplitOfConcat(opening + "\n" + value, delimiter, '\n');
    SplitOfConcat(opening + "\n" + value + "\n" + delimiter, rest, '\n');
  }

  lemma ReadAssignment(name: string, value: string, draws: Draws, rest: string)
    requires IsName(name) && AssignmentOf(name, value, draws).Ok?
    ensures Read(Split(AssignmentOf(name, value, draws).value + rest, '\n'))
            == Prepend(Variable(name, value), Read(Split(rest, '\n')))
  {
    if '\n' in value {
      DelimiterIsCandidate(name, value, draws, 0);
      var delimiter := DelimiterFrom(name, value, draws, 0).value;
      var k: nat :| k < DELIMITER_ATTEMPTS && draws(k).Some? && delimiter == Candidate(name, draws(k).value);
      CandidateIsPlain(name, draws(k).value);
      ReadHeredoc(name, value, delimiter, rest);
    } else {
      ReadOneLine(name, value, rest);
    }
  }

  // ----- the whole file

  lemma RenderedStep(secrets: seq<Exported>, names: seq<string>, entropy: nat -> Draws, i: nat)
    requires i < |secrets| == |names|
    ensures var r, next := RenderedFrom(secrets, names, entropy, i), RenderedFrom(secrets, names, entropy, i + 1);
            var assignment := AssignmentOf(names[i], secrets[i].value, entropy(i));
            && (r.Ok? <==> assignment.Ok? && next.Ok?)
            && (r.Ok? ==>
                  && r.value.assignments == assignment.value + next.value.assignments
                  && r.value.masks == MaskCommands(Lines(secrets[i].value)) + next.value.masks)
  {
  }

  lemma ReadNothing()
    ensures Read(Split("", '\n')) == Some([])
  {
    assert Split("", '\n') == [""];
    assert [""][1..] == [];
  }

  lemma {:induction false} ReadFrom(
    secrets: seq<Exported>, names: seq<string>, entropy: nat -> Draws, variables: seq<Variable>, i: nat)
    requires i <= |secrets| == |names| == |variables| && RenderedFrom(secrets, names, entropy, i).Ok?
    requires forall j :: 0 <= j < |names| ==> IsName(names[j]) && variables[j] == Variable(names[j], secrets[j].value)
    ensures Read(Split(RenderedFrom(secrets, names, entropy, i).value.assignments, '\n')) == Some(variables[i..])
    decreases |secrets| - i
  {
    if i == |secrets| {
      ReadNothing();
      assert variables[i..] == [];
    } else {
      RenderedStep(secrets, names, entropy, i);
      ReadFrom(secrets, names, entropy, variables, i + 1);
      var rest := RenderedFrom(secrets, names, entropy, i + 1).value.assignments;
      ReadAssignment(names[i], secrets[i].value, entropy(i), rest);
      SuffixStep(variables, i);
    }
  }

  /**
   * Whatever the values contain and whatever bytes are drawn, a rendered file is read back as the
   * exported variables, no two of one name, and nothing else.
   */
  lemma ReadsBackExactly(secrets: seq<Exported>, entropy: nat -> Draws)
    requires ActionsEnv(secrets, entropy).Ok?
    ensures Read(Split(ActionsEnv(secrets, entropy).value.assignments, '\n')) == Some(VariablesOf(secrets))
    ensures forall i, j :: 0 <= i < j < |secrets| ==> VariablesOf(secrets)[i].name != VariablesOf(secrets)[j].name
  {
    NamesAreVariables(secrets);
    ReadFrom(secrets, AssignNames(PathsOf(secrets), []).value, entropy, VariablesOf(secrets), 0);
    assert VariablesOf(secrets)[0..] == VariablesOf(secrets);
  }

  // ----- when there is a rendering

  /** The `j`th attempt is reached with entropy and gives a delimiter that is no line of the value. */
  ghost predicate Fits(name: string, value: string, draws: Draws, k: nat, j: nat) {
    && k <= j < 4
    && (forall i: nat :: k <= i <= j ==> draws(i).Some?)
    && Candidate(name, draws(j).value) !in Lines(value)
  }

  ghost predicate SomeCandidateFits(name: string, value: string, draws: Draws, k: nat) {
    exists j: nat :: Fits(name, value, draws, k, j)
  }

  lemma {:induction false} DelimiterFoundIff(name: string, value: string, draws: Draws, k: nat)
    requires k <= DELIMITER_ATTEMPTS
    ensures DelimiterFrom(name, value, draws, k).Ok? <==> SomeCandidateFits(name, value, draws, k)
    decreases DELIMITER_ATTEMPTS - k
  {
    if k < DELIMITER_ATTEMPTS && draws(k).Some? {
      if Candidate(name, draws(k).value) !in Lines(value) {
        assert Fits(name, value, draws, k, k);
      } else {
        DelimiterFoundIff(name, value, draws, k + 1);
        var next := k + 1;
        if j: nat :| Fits(name, value, draws, next, j) {
          assert Fits(name, value, draws, k, j);
        }
        if j: nat :| Fits(name, value, draws, k, j) {
          assert Fits(name, value, draws, k + 1, j);
        }
      }
    }
  }

  /** Each value of several lines, from the `i`th on, gets a delimiter. */
  ghost predicate AllFit(secrets: seq<Exported>, names: seq<string>, entropy: nat -> Draws, i: nat)
    requires |secrets| == |names|
  {
    forall j: nat :: i <= j < |secrets| && '\n' in secrets[j].value ==>
      SomeCandidateFits(names[j], secrets[j].value, entropy(j), 0)
  }

  lemma AllFitStep(secrets: seq<Exported>, names: seq<string>, entropy: nat -> Draws, i: nat)
    requires i < |secrets| == |names|
    ensures AllFit(secrets, names, entropy, i) <==>
              && ('\n' in secrets[i].value ==> SomeCandidateFits(names[i], secrets[i].value, entropy(i), 0))
              && AllFit(secrets, names, entropy, i + 1)
  {
  }

  lemma {:induction false} RenderedFromIff(secrets: seq<Exported>, names: seq<string>, entropy: nat -> Draws, i: nat)
    requires i <= |secrets| == |names|
    ensures RenderedFrom(secrets, names, entropy, i).Ok? <==> AllFit(secrets, names, entropy, i)
    decreases |secrets| - i
  {
    if i < |secrets| {
      RenderedStep(secrets, names, entropy, i);
      AllFitStep(secrets, names, entropy, i);
      DelimiterFoundIff(names[i], secrets[i].value, entropy(i), 0);
      RenderedFromIff(secrets, names, entropy, i + 1);
    }
  }

  /**
   * An export is refused only for its names, for missing entropy, or for a value of several lines
   * that contains every delimiter drawn for it.
   */
  lemma RenderedIff(secrets: seq<Exported>, entropy: nat -> Draws)
    ensures ActionsEnv(secrets, entropy).Ok? <==>
              && Nameable(PathsOf(secrets))
              && forall j: nat :: j < |secrets| && '\n' in secrets[j].value ==>
                   SomeCandidateFits(LastSegment(secrets[j].path), secrets[j].value, entropy(j), 0)
  {
    AssignedIff(PathsOf(secrets));
    if Nameable(PathsOf(secrets)) {
      var names := AssignNames(PathsOf(secrets), []).value;
      RenderedFromIff(secrets, names, entropy, 0);
      assert forall j :: 0 <= j < |secrets| ==> names[j] == LastSegment(secrets[j].path);
    }
  }

  /** The `j`th attempt is drawn and gives a line of the value. */
  predicate Occurs(name: string, value: string, draws: Draws, j: nat) {
    draws(j).Some? && "ciphr_" + name + "_" + Hex.Encoded(draws(j).value) in Lines(value)
  }

  /** From the `k`th attempt on, entropy runs out before a delimiter is found. */
  ghost predicate RunsOut(name: string, value: string, draws: Draws, k: nat) {
    exists j: nat :: k <= j < 4 && draws(j).None? && forall i: nat :: k <= i < j ==> Occurs(name, value, draws, i)
  }

  ghost predicate AllAttemptsOccur(name: string, value: string, draws: Draws, k: nat) {
    forall i: nat :: k <= i < 4 ==> Occurs(name, value, draws, i)
  }

  lemma RunsOutStep(name: string, value: string, draws: Draws, k: nat)
    requires k < 4
    ensures RunsOut(name, value, draws, k) <==>
              draws(k).None? || (Occurs(name, value, draws, k) && RunsOut(name, value, draws, k + 1))
  {
    if draws(k).Some? && RunsOut(name, value, draws, k) {
      var j: nat :| k <= j < 4 && draws(j).None? && forall i: nat :: k <= i < j ==> Occurs(name, value, draws, i);
      assert k + 1 <= j;
    }
    if Occurs(name, value, draws, k) && RunsOut(name, value, draws, k + 1) {
      var next := k + 1;
      var j: nat :| next <= j < 4 && draws(j).None? && forall i: nat :: next <= i < j ==> Occurs(name, value, draws, i);
      forall i: nat | k <= i < j ensures Occurs(name, value, draws, i) {
        assert i > k ==> next <= i;
      }
    }
  }

  lemma {:induction false} DelimiterRefusedIff(name: string, value: string, draws: Draws, k: nat)
    requires k <= DELIMITER_ATTEMPTS
    ensures DelimiterFrom(name, value, draws, k) == Err(Delimiter(name, NoEntropy)) <==> RunsOut(name, value, draws, k)
    ensures DelimiterFrom(name, value, draws, k) == Err(Delimiter(name, AllOccur))
            <==> AllAttemptsOccur(name, value, draws, k)
    decreases DELIMITER_ATTEMPTS - k
  {
    if k < DELIMITER_ATTEMPTS {
      RunsOutStep(name, value, draws, k);
      assert AllAttemptsOccur(name, value, draws, k) <==>
               Occurs(name, value, draws, k) && AllAttemptsOccur(name, value, draws, k + 1);
      DelimiterRefusedIff(name, value, draws, k + 1);
    }
  }

  lemma {:induction false} RefusedFromIff(
    secrets: seq<Exported>, names: seq<string>, entropy: nat -> Draws, i: nat, k: nat, e: ExportError)
    requires i <= k < |secrets| == |names|
    requires AssignmentOf(names[k], secrets[k].value, entropy(k)) == Err(e)
    requires forall j :: i <= j < k ==> AssignmentOf(names[j], secrets[j].value, entropy(j)).Ok?
    ensures RenderedFrom(secrets, names, entropy, i) == Err(e)
    decreases k - i
  {
    if i < k {
      RefusedFromIff(secrets, names, entropy, i + 1, k, e);
    }
  }

  /** The value of the secret at `k` gets no delimiter. */
  ghost predicate Undelimited(secrets: seq<Exported>, entropy: nat -> Draws, k: nat)
    requires k < |secrets|
  {
    var name, value := LastSegment(secrets[k].path), secrets[k].value;
    '\n' in value && !SomeCandidateFits(name, value, entropy(k), 0)
  }

  lemma AssignedUnless(secrets: seq<Exported>, entropy: nat -> Draws, k: nat)
    requires k < |secrets|
    ensures AssignmentOf(LastSegment(secrets[k].path), secrets[k].value, entropy(k)).Ok? <==>
            !Undelimited(secrets, entropy, k)
  {
    DelimiterFoundIff(LastSegment(secrets[k].path), secrets[k].value, entropy(k), 0);
  }

  /** A refusal for want of a delimiter names the first value without one, and whether its entropy or its text is why. */
  lemma RefusalNamesFirst(secrets: seq<Exported>, entropy: nat -> Draws, k: nat)
    requires Nameable(PathsOf(secrets)) && k < |secrets| && Undelimited(secrets, entropy, k)
    requires forall j :: 0 <= j < k ==> !Undelimited(secrets, entropy, j)
    ensures var name, value := LastSegment(secrets[k].path), secrets[k].value;
            ActionsEnv(secrets, entropy) ==
            Err(Delimiter(name, if RunsOut(name, value, entropy(k), 0) then NoEntropy else AllOccur))
  {
    AssignedIff(PathsOf(secrets));
    var names := AssignNames(PathsOf(secrets), []).value;
    assert forall j :: 0 <= j < |secrets| ==> names[j] == LastSegment(secrets[j].path);
    forall j | 0 <= j < k ensures AssignmentOf(names[j], secrets[j].value, entropy(j)).Ok? {
      AssignedUnless(secrets, entropy, j);
    }
    DelimiterFoundIff(names[k], secrets[k].value, entropy(k), 0);
    DelimiterRefusedIff(names[k], secrets[k].value, entropy(k), 0);
    RefusedOneWay(names[k], secrets[k].value, entropy(k), 0);
    RefusedFromIff(secrets, names, entropy, 0, k, DelimiterFrom(names[k], secrets[k].value, entropy(k), 0).error);
  }

  lemma {:induction false} RefusedOneWay(name: string, value: string, draws: Draws, k: nat)
    requires k <= DELIMITER_ATTEMPTS && DelimiterFrom(name, value, draws, k).Err?
    ensures var e := DelimiterFrom(name, value, draws, k).error;
            e == Delimiter(name, NoEntropy) || e == Delimiter(name, AllOccur)
    decreases DELIMITER_ATTEMPTS - k
  {
    if k < DELIMITER_ATTEMPTS && draws(k).Some? {
      RefusedOneWay(name, value, draws, k + 1);
    }
  }

  // ----- masks

  ghost predicate IsMaskOf(lines: seq<string>, command: string) {
    exists line :: line in lines && line != "" && command == "::add-mask::" + line
  }

  lemma MaskOfOneMore(line: string, lines: seq<string>, command: string)
    ensures IsMaskOf([line] + lines, command) <==>
              (line != "" && command == "::add-mask::" + line) || IsMaskOf(lines, command)
  {
    assert forall other :: other in [line] + lines <==> other == line || other in lines;
  }

  lemma SplitOfMask(line: string, more: string)
    requires '\n' !in line
    ensures Split(MASK + line + "\n" + more, '\n') == [MASK + line] + Split(more, '\n')
  {
    assert '\n' !in MASK;
    SplitOfOne(MASK + line, '\n');
    SplitOfConcat(MASK + line, more, '\n');
  }

  lemma {:induction false} MasksOfLines(lines: seq<string>, rest: string, command: string)
    requires command != "" && forall line :: line in lines ==> '\n' !in line
    ensures command in Split(MaskCommands(lines) + rest, '\n') <==> IsMaskOf(lines, command) || command in Split(rest, '\n')
  {
    if lines == [] {
      assert MaskCommands(lines) + rest == rest;
    } else {
      var line, more := lines[0], lines[1..];
      assert lines == [line] + more && line in lines && forall other :: other in more ==> other in lines;
      MasksOfLines(more, rest, command);
      MaskOfOneMore(line, more, command);
      var tail := MaskCommands(more) + rest;
      if line == "" {
        assert "" + MaskCommands(more) == MaskCommands(more);
      } else {
        Regroup(MASK + line + "\n", MaskCommands(more), rest);
        SplitOfMask(line, tail);
      }
    }
  }

  /** Some value from the `i`th on has a line that the command masks. */
  ghost predicate IsMaskFrom(secrets: seq<Exported>, i: nat, command: string) {
    exists j: nat :: i <= j < |secrets| && IsMaskOf(Lines(secrets[j].value), command)
  }

  lemma IsMaskStep(secrets: seq<Exported>, i: nat, command: string)
    requires i < |secrets|
    ensures IsMaskFrom(secrets, i, command)
            <==> IsMaskOf(Lines(secrets[i].value), command) || IsMaskFrom(secrets, i + 1, command)
  {
  }

  lemma {:induction false} MasksFrom(
      secrets: seq<Exported>, names: seq<string>, entropy: nat -> Draws, i: nat, command: string)
    requires i <= |secrets| == |names| && RenderedFrom(secrets, names, entropy, i).Ok? && command != ""
    ensures command in Split(RenderedFrom(secrets, names, entropy, i).value.masks, '\n') <==> IsMaskFrom(secrets, i, command)
    decreases |secrets| - i
  {
    if i == |secrets| {
      assert Split("", '\n') == [""];
    } else {
      RenderedStep(secrets, names, entropy, i);
      MasksFrom(secrets, names, entropy, i + 1, command);
      LinesHaveNoBreak(secrets[i].value);
      MasksOfLines(Lines(secrets[i].value), RenderedFrom(secrets, names, entropy, i + 1).value.masks, command);
      IsMaskStep(secrets, i, command);
    }
  }

  /** Standard output holds one mask command for every line of every value that is not empty, and nothing else. */
  lemma EveryLineIsMasked(secrets: seq<Exported>, entropy: nat -> Draws, command: string)
    requires ActionsEnv(secrets, entropy).Ok? && command != ""
    ensures command in Split(ActionsEnv(secrets, entropy).value.masks, '\n') <==> IsMaskFrom(secrets, 0, command)
  {
    AssignedIff(PathsOf(secrets));
    MasksFrom(secrets, AssignNames(PathsOf(secrets), []).value, entropy, 0, command);
  }
}
