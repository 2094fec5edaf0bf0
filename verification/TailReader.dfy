/** The last line of a file, read backwards in blocks (crates/ciphr-audit/src/file.rs, `head_seq`). */
module TailReader {

  function WithoutTrailingNewlines(s: string): (t: string)
    ensures |t| <= |s| && t == s[..|t|]
  {
    if s != [] && s[|s| - 1] == '\n' then WithoutTrailingNewlines(s[..|s| - 1]) else s
  }

  function AfterLastNewline(s: string): string {
    if s == [] || s[|s| - 1] == '\n' then [] else AfterLastNewline(s[..|s| - 1]) + [s[|s| - 1]]
  }

  /** What the reader is for: trailing newlines dropped, then everything after the last newline. */
  function LastLineOf(content: string): string {
    AfterLastNewline(WithoutTrailingNewlines(content))
  }

  /** `rposition` of a newline, or -1. */
  function LastNewline(s: string): (i: int)
    ensures -1 <= i < |s|
    ensures i >= 0 ==> s[i] == '\n'
    ensures forall j :: i < j < |s| ==> s[j] != '\n'
  {
    if s == [] then -1 else if s[|s| - 1] == '\n' then |s| - 1 else LastNewline(s[..|s| - 1])
  }

  method LastLine(content: string, block: nat) returns (line: string)
    requires block > 0
    ensures line == LastLineOf(content)
  {
    var tail := "";
    var readFrom := |content|;
    while true
      invariant 0 <= readFrom <= |content|
      invariant tail == content[readFrom..]
      invariant readFrom == 0 ==> content == []
      decreases readFrom
    {
      var take := if block < readFrom then block else readFrom;
      readFrom := readFrom - take;
      var read := content[readFrom..readFrom + take];
      tail := read + tail;
      assert content == content[..readFrom] + tail;

      var end := |WithoutTrailingNewlines(tail)|;
      var start := LastNewline(tail[..end]);
      if start >= 0 {
        TrimOfConcat(content[..readFrom], tail);
        AfterOfConcat(content[..readFrom], tail[..end]);
        AfterFromIndex(tail[..end], start);
        assert tail[..end][start + 1..] == tail[start + 1..end];
        return tail[start + 1..end];
      }
      if readFrom == 0 {
        assert tail == content;
        AfterWithout(tail[..end]);
        return tail[..end];
      }
    }
  }

  lemma {:induction false} TrimOfConcat(a: string, b: string)
    ensures WithoutTrailingNewlines(a + b) ==
            if WithoutTrailingNewlines(b) == [] then WithoutTrailingNewlines(a) else a + WithoutTrailingNewlines(b)
  {
    if b == [] {
      assert a + b == a;
    } else {
      assert (a + b)[..|a + b| - 1] == a + b[..|b| - 1];
      TrimOfConcat(a, b[..|b| - 1]);
    }
  }

  lemma {:induction false} AfterOfConcat(a: string, b: string)
    requires '\n' in b
    ensures AfterLastNewline(a + b) == AfterLastNewline(b)
  {
    if b[|b| - 1] != '\n' {
      assert (a + b)[..|a + b| - 1] == a + b[..|b| - 1];
      assert b == b[..|b| - 1] + [b[|b| - 1]];
      AfterOfConcat(a, b[..|b| - 1]);
    }
  }

  lemma {:induction false} AfterFromIndex(s: string, i: nat)
    requires i < |s| && s[i] == '\n' && forall j :: i < j < |s| ==> s[j] != '\n'
    ensures AfterLastNewline(s) == s[i + 1..]
  {
    if i < |s| - 1 {
      AfterFromIndex(s[..|s| - 1], i);
      assert s[i + 1..] == s[..|s| - 1][i + 1..] + [s[|s| - 1]];
    }
  }

  lemma {:induction false} AfterWithout(s: string)
    requires forall j :: 0 <= j < |s| ==> s[j] != '\n'
    ensures AfterLastNewline(s) == s
  {
    if s != [] {
      AfterWithout(s[..|s| - 1]);
      assert s == s[..|s| - 1] + [s[|s| - 1]];
    }
  }

  /** The last line of text that ends with one more line is that line. */
  lemma LastLineOfAppended(before: string, line: string)
    requires line != [] && '\n' !in line
    requires before == [] || before[|before| - 1] == '\n'
    ensures LastLineOf(before + (line + "\n")) == line
  {
    var ended := line + "\n";
    assert WithoutTrailingNewlines(ended) == line by {
      assert ended[..|ended| - 1] == line;
    }
    TrimOfConcat(before, ended);
    if before == [] {
      assert before + line == line;
      AfterWithout(line);
    } else {
      assert before + line == before[..|before| - 1] + (['\n'] + line);
      AfterOfConcat(before[..|before| - 1], ['\n'] + line);
      AfterFromIndex(['\n'] + line, 0);
    }
  }
}
