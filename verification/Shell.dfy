/**
 * What a shell reads in a rendered `.env` file (crates/ciphr-export/src/lib.rs). The reader follows
 * sections 2.2.1 (escape character) and 2.2.2 (single quotes) of the Shell Command Language of
 * POSIX.1-2017, for lines that are one assignment each.
 */
module Shell {
  import opened Basics
  import opened Text
  import opened EnvName
  import opened Export

  datatype Word = Word(text: string, rest: string)

  function WithLiteral(c: char, word: Option<Word>): Option<Word> {
    if word.Some? then Some(Word([c] + word.value.text, word.value.rest)) else None
  }

  /**
   * The word at the start of `s` and what follows the line break that ends it. Unquoted characters
   * other than those of names, quotes, backslashes and line breaks are not read, nor is a NUL, which
   * no shell variable can hold.
   */
  function ReadWord(s: string, quoted: bool): (word: Option<Word>)
    ensures word.Some? ==> |word.value.rest| <= |s|
  {
    if s == [] then
      if quoted then None else Some(Word([], []))
    else if s[0] == '\0' then None
    else if quoted then
      if s[0] == '\'' then ReadWord(s[1..], false) else WithLiteral(s[0], ReadWord(s[1..], true))
    else if s[0] == '\n' then Some(Word([], s[1..]))
    else if s[0] == '\'' then ReadWord(s[1..], true)
    else if s[0] == '\\' then
      if |s| == 1 || s[1] == '\0' then None
      else if s[1] == '\n' then ReadWord(s[2..], false)
      else WithLiteral(s[1], ReadWord(s[2..], false))
    else if IsNameChar(s[0]) then WithLiteral(s[0], ReadWord(s[1..], false))
    else None
  }

  function ReadAssignments(s: string): Option<seq<Variable>>
    decreases |s|
  {
    if s == [] then Some([])
    else
      var equals := IndexOf(s, '=');
      if equals == |s| || !IsName(s[..equals]) then None
      else
        match ReadWord(s[equals + 1..], false)
        case None => None
        case Some(word) =>
          match ReadAssignments(word.rest)
          case None => None
          case Some(more) => Some([Variable(s[..equals], word.text)] + more)
  }

  /** Closing the quote, an escaped quote and reopening the quote read as the one quote. */
  lemma ReadEscapedQuote(rest: string)
    ensures ReadWord("'\\''" + rest, true) == WithLiteral('\'', ReadWord(rest, true))
  {
    var s := "'\\''" + rest;
    assert s[1..] == "\\''" + rest;
    assert s[1..][2..] == "'" + rest;
    assert s[1..][2..][1..] == rest;
    assert ReadWord(s[1..][2..], false) == ReadWord(rest, true);
    assert ReadWord(s[1..], false) == WithLiteral('\'', ReadWord(s[1..][2..], false));
  }

  lemma ReadQuotedChar(c: char, rest: string)
    requires c != '\''
    ensures ReadWord([c] + rest, true) == if c == '\0' then None else WithLiteral(c, ReadWord(rest, true))
  {
    assert ([c] + rest)[1..] == rest;
  }

  lemma ReadClosingQuote(rest: string)
    ensures ReadWord("'\n" + rest, true) == Some(Word([], rest))
  {
    var s := "'\n" + rest;
    assert s[1..] == "\n" + rest && s[1..][1..] == rest;
    assert ReadWord(s[1..], false) == Some(Word([], rest));
  }

  lemma {:induction false} ReadEscaped(value: string, rest: string)
    ensures ReadWord(Escaped(value) + "'\n" + rest, true) == if '\0' in value then None else Some(Word(value, rest))
  {
    var s := Escaped(value) + "'\n" + rest;
    if value == [] {
      assert s == "'\n" + rest;
      ReadClosingQuote(rest);
    } else {
      var tail := Escaped(value[1..]) + "'\n" + rest;
      ReadEscaped(value[1..], rest);
      assert value == [value[0]] + value[1..];
      var piece := if value[0] == '\'' then "'\\''" else [value[0]];
      Regroup(piece, Escaped(value[1..]), "'\n");
      Regroup(piece, Escaped(value[1..]) + "'\n", rest);
      assert s == piece + tail;
      if value[0] == '\'' {
        ReadEscapedQuote(tail);
      } else {
        ReadQuotedChar(value[0], tail);
      }
    }
  }

  lemma ReadLine(name: string, value: string, rest: string)
    requires IsName(name)
    ensures ReadAssignments(DotenvLine(name, value) + "\n" + rest)
            == if '\0' in value then None
               else
                 match ReadAssignments(rest)
                 case None => None
                 case Some(more) => Some([Variable(name, value)] + more)
  {
    var s := DotenvLine(name, value) + "\n" + rest;
    var word := Escaped(value) + "'\n" + rest;
    assert s == name + ['='] + ("'" + word);
    assert s[..|name|] == name;
    IndexOfIs(s, '=', |name|);
    assert s[|name| + 1..] == "'" + word && ("'" + word)[1..] == word;
    ReadEscaped(value, rest);
    assert ReadWord(s[|name| + 1..], false) == ReadWord(word, true);
  }

  /** No value from the `i`th on holds a NUL. */
  ghost predicate NoNul(secrets: seq<Exported>, i: nat) {
    forall j :: i <= j < |secrets| ==> '\0' !in secrets[j].value
  }

  lemma {:induction false} ReadFrom(secrets: seq<Exported>, names: seq<string>, variables: seq<Variable>, i: nat)
    requires i <= |secrets| == |names| == |variables|
    requires forall j :: 0 <= j < |names| ==> IsName(names[j]) && variables[j] == Variable(names[j], secrets[j].value)
    ensures ReadAssignments(DotenvFrom(secrets, names, i)) == if NoNul(secrets, i) then Some(variables[i..]) else None
    decreases |secrets| - i
  {
    if i == |secrets| {
      assert variables[i..] == [];
    } else {
      ReadFrom(secrets, names, variables, i + 1);
      ReadLine(names[i], secrets[i].value, DotenvFrom(secrets, names, i + 1));
      SuffixStep(variables, i);
      assert NoNul(secrets, i) <==> '\0' !in secrets[i].value && NoNul(secrets, i + 1);
    }
  }

  /** A shell reads every exported variable back exactly, unless a value holds a NUL. */
  lemma ShellReadsBack(secrets: seq<Exported>)
    requires Dotenv(secrets).Ok?
    ensures ReadAssignments(Dotenv(secrets).value) == if NoNul(secrets, 0) then Some(VariablesOf(secrets)) else None
  {
    NamesAreVariables(secrets);
    ReadFrom(secrets, AssignNames(PathsOf(secrets), []).value, VariablesOf(secrets), 0);
    assert VariablesOf(secrets)[0..] == VariablesOf(secrets);
  }
}
