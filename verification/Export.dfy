/** Rendering secrets as an Actions environment file and as dotenv (crates/ciphr-export/src/lib.rs). */
module Export {
  import opened Basics
  import opened Text
  import opened Path
  import opened EnvName
  import Hex

  const DELIMITER_BYTES := 16
  const DELIMITER_ATTEMPTS: nat := 4

  /** What the operating system hands out for one attempt: random bytes, or no entropy. */
  type Bytes16 = b: seq<byte> | |b| == DELIMITER_BYTES witness [0, 0, 0, 0, 0, 0, 0, 0, 0, 0, 0, 0, 0, 0, 0, 0]
  type Draws = nat -> Option<Bytes16>

  datatype Exported = Exported(path: SecretPath, value: string)
  datatype DelimiterFault = NoEntropy | AllOccur
  datatype ExportError = EnvName(error: EnvNameError) | Delimiter(name: string, fault: DelimiterFault)

  function PathsOf(secrets: seq<Exported>): seq<SecretPath> {
    Map((secret: Exported) => secret.path, secrets)
  }

  // ----- the heredoc delimiter

  function Candidate(name: string, bytes: seq<byte>): string {
    "ciphr_" + name + "_" + Hex.Encoded(bytes)
  }

  /** The first candidate, from attempt `k` on, that is no line of the value. */
  function DelimiterFrom(name: string, value: string, draws: Draws, k: nat): Result<string, ExportError>
    requires k <= DELIMITER_ATTEMPTS
    decreases DELIMITER_ATTEMPTS - k
  {
    if k == DELIMITER_ATTEMPTS then Err(Delimiter(name, AllOccur))
    else
      match draws(k)
      case None => Err(Delimiter(name, NoEntropy))
      case Some(bytes) =>
        if Candidate(name, bytes) !in Lines(value) then Ok(Candidate(name, bytes))
        else DelimiterFrom(name, value, draws, k + 1)
  }

  method HeredocDelimiter(name: string, value: string, draws: Draws) returns (r: Result<string, ExportError>)
    ensures r == DelimiterFrom(name, value, draws, 0)
  {
    for k := 0 to DELIMITER_ATTEMPTS
      invariant DelimiterFrom(name, value, draws, 0) == DelimiterFrom(name, value, draws, k)
    {
      var drawn := draws(k);
      if drawn.None? {
        return Err(Delimiter(name, NoEntropy));
      }
      var text := Hex.Encode(drawn.value);
      var candidate := "ciphr_" + name + "_" + text;
      if candidate !in Lines(value) {
        return Ok(candidate);
      }
    }
    return Err(Delimiter(name, AllOccur));
  }

  lemma {:induction false} DelimiterIsCandidate(name: string, value: string, draws: Draws, k: nat)
    requires k <= DELIMITER_ATTEMPTS && DelimiterFrom(name, value, draws, k).Ok?
    ensures var delimiter := DelimiterFrom(name, value, draws, k).value;
            && delimiter !in Lines(value)
            && exists j: nat :: k <= j < 4 && draws(j).Some? && delimiter == "ciphr_" + name + "_" + Hex.Encoded(draws(j).value)
    decreases DELIMITER_ATTEMPTS - k
  {
    if Candidate(name, draws(k).value) in Lines(value) {
      DelimiterIsCandidate(name, value, draws, k + 1);
    }
  }

  // ----- the Actions environment file

  datatype Rendering = Rendering(masks: string, assignments: string) {
    function Then(next: Rendering): Rendering {
      Rendering(masks + next.masks, assignments + next.assignments)
    }
  }

  const MASK := "::add-mask::"

  function MaskCommands(lines: seq<string>): string {
    if lines == [] then ""
    else (if lines[0] == "" then "" else MASK + lines[0] + "\n") + MaskCommands(lines[1..])
  }

  function AssignmentOf(name: string, value: string, draws: Draws): Result<string, ExportError> {
    if '\n' in value then
      var delimiter :- DelimiterFrom(name, value, draws, 0);
      Ok(name + "<<" + delimiter + "\n" + value + "\n" + delimiter + "\n")
    else
      Ok(name + "=" + value + "\n")
  }

  /** The rendering of the secrets from the `i`th on; `entropy(i)` is what the `i`th secret draws. */
  function RenderedFrom(secrets: seq<Exported>, names: seq<string>, entropy: nat -> Draws, i: nat)
    : Result<Rendering, ExportError>
    requires i <= |secrets| == |names|
    decreases |secrets| - i
  {
    if i == |secrets| then Ok(Rendering("", ""))
    else
      var assignment :- AssignmentOf(names[i], secrets[i].value, entropy(i));
      var rest :- RenderedFrom(secrets, names, entropy, i + 1);
      Ok(Rendering(MaskCommands(Lines(secrets[i].value)), assignment).Then(rest))
  }

  function ActionsEnv(secrets: seq<Exported>, entropy: nat -> Draws): Result<Rendering, ExportError> {
    match AssignNames(PathsOf(secrets), [])
    case Err(e) => Err(EnvName(e))
    case Ok(names) =>
      AssignedIff(PathsOf(secrets));
      RenderedFrom(secrets, names, entropy, 0)
  }

  function Continued(front: Rendering, r: Result<Rendering, ExportError>): Result<Rendering, ExportError> {
    if r.Ok? then Ok(front.Then(r.value)) else r
  }

  lemma ThenIsAssociative(a: Rendering, b: Rendering, c: Rendering)
    ensures a.Then(b).Then(c) == a.Then(b.Then(c))
  {
    assert a.masks + b.masks + c.masks == a.masks + (b.masks + c.masks);
    assert a.assignments + b.assignments + c.assignments == a.assignments + (b.assignments + c.assignments);
  }

  lemma EmptyThen(r: Rendering)
    ensures Rendering("", "").Then(r) == r == r.Then(Rendering("", ""))
  {
    assert "" + r.masks == r.masks == r.masks + "";
    assert "" + r.assignments == r.assignments == r.assignments + "";
  }

  /** One command per line that is not empty, pushed onto what is there. */
  method PushMasks(masks: string, value: string) returns (r: string)
    ensures r == masks + MaskCommands(Lines(value))
  {
    var lines := Lines(value);
    r := masks;
    assert lines[0..] == lines;
    for i := 0 to |lines|
      invariant masks + MaskCommands(lines) == r + MaskCommands(lines[i..])
    {
      assert lines[i..][1..] == lines[i + 1..];
      if lines[i] == "" {
        assert r + MaskCommands(lines[i..]) == r + MaskCommands(lines[i + 1..]) by {
          assert "" + MaskCommands(lines[i + 1..]) == MaskCommands(lines[i + 1..]);
        }
        continue;
      }
      var command := MASK + lines[i] + "\n";
      assert r + (command + MaskCommands(lines[i + 1..])) == r + command + MaskCommands(lines[i + 1..]);
      r := r + command;
    }
    assert r + "" == r;
  }

  method RenderActionsEnv(secrets: seq<Exported>, entropy: nat -> Draws) returns (r: Result<Rendering, ExportError>)
    ensures r == ActionsEnv(secrets, entropy)
  {
    var naming := Assign(PathsOf(secrets));
    if naming.Err? {
      return Err(EnvName(naming.error));
    }
    AssignedIff(PathsOf(secrets));
    var names := naming.value;
    var done := Rendering("", "");
    if RenderedFrom(secrets, names, entropy, 0).Ok? {
      EmptyThen(RenderedFrom(secrets, names, entropy, 0).value);
    }
    for i := 0 to |secrets|
      invariant RenderedFrom(secrets, names, entropy, 0) == Continued(done, RenderedFrom(secrets, names, entropy, i))
    {
      var name, value := names[i], secrets[i].value;
      var masks := PushMasks(done.masks, value);
      var assignment;
      if '\n' in value {
        var delimiter := HeredocDelimiter(name, value, entropy(i));
        if delimiter.Err? {
          return Err(delimiter.error);
        }
        assignment := name + "<<" + delimiter.value + "\n" + value + "\n" + delimiter.value + "\n";
      } else {
        assignment := name + "=" + value + "\n";
      }
      var one := Rendering(MaskCommands(Lines(value)), assignment);
      if RenderedFrom(secrets, names, entropy, i + 1).Ok? {
        ThenIsAssociative(done, one, RenderedFrom(secrets, names, entropy, i + 1).value);
      }
      done := Rendering(masks, done.assignments + assignment);
    }
    EmptyThen(done);
    return Ok(done);
  }

  // ----- dotenv

  /** A value as it stands between the outer quotes. */
  function Escaped(value: string): string {
    if value == [] then []
    else (if value[0] == '\'' then "'\\''" else [value[0]]) + Escaped(value[1..])
  }

  function Quoted(value: string): string {
    "'" + Escaped(value) + "'"
  }

  method ShellSingleQuote(value: string) returns (out: string)
    ensures out == Quoted(value)
  {
    out := "'";
    assert value[0..] == value;
    for i := 0 to |value|
      invariant "'" + Escaped(value) == out + Escaped(value[i..])
    {
      assert value[i..][1..] == value[i + 1..];
      var piece := if value[i] == '\'' then "'\\''" else [value[i]];
      assert out + (piece + Escaped(value[i + 1..])) == out + piece + Escaped(value[i + 1..]);
      out := out + piece;
    }
    assert out + [] == out;
    out := out + "'";
  }

  function DotenvLine(name: string, value: string): string {
    name + "=" + Quoted(value)
  }

  function DotenvFrom(secrets: seq<Exported>, names: seq<string>, i: nat): string
    requires i <= |secrets| == |names|
    decreases |secrets| - i
  {
    if i == |secrets| then ""
    else DotenvLine(names[i], secrets[i].value) + "\n" + DotenvFrom(secrets, names, i + 1)
  }

  function Dotenv(secrets: seq<Exported>): Result<string, ExportError> {
    match AssignNames(PathsOf(secrets), [])
    case Err(e) => Err(EnvName(e))
    case Ok(names) =>
      AssignedIff(PathsOf(secrets));
      Ok(DotenvFrom(secrets, names, 0))
  }

  method RenderDotenv(secrets: seq<Exported>) returns (r: Result<string, ExportError>)
    ensures r == Dotenv(secrets)
  {
    var naming := Assign(PathsOf(secrets));
    if naming.Err? {
      return Err(EnvName(naming.error));
    }
    AssignedIff(PathsOf(secrets));
    var names, out := naming.value, "";
    assert "" + DotenvFrom(secrets, names, 0) == DotenvFrom(secrets, names, 0);
    for i := 0 to |secrets|
      invariant DotenvFrom(secrets, names, 0) == out + DotenvFrom(secrets, names, i)
    {
      var quoted := ShellSingleQuote(secrets[i].value);
      var line := names[i] + "=" + quoted + "\n";
      assert DotenvLine(names[i], secrets[i].value) + "\n" == line;
      assert out + (line + DotenvFrom(secrets, names, i + 1)) == out + line + DotenvFrom(secrets, names, i + 1);
      out := out + line;
    }
    assert out + "" == out;
    return Ok(out);
  }

  // ----- what was exported

  datatype Variable = Variable(name: string, value: string)

  /** The variables that an export stands for: last segments and values, in order. */
  function VariablesOf(secrets: seq<Exported>): seq<Variable> {
    Map((secret: Exported) => Variable(LastSegment(secret.path), secret.value), secrets)
  }

  /** What a successful naming says about the secrets, one by one. */
  lemma NamesAreVariables(secrets: seq<Exported>)
    requires AssignNames(PathsOf(secrets), []).Ok?
    ensures var names := AssignNames(PathsOf(secrets), []).value;
            && |names| == |secrets| && Distinct(names)
            && forall i :: 0 <= i < |secrets| ==>
                 IsName(names[i]) && VariablesOf(secrets)[i] == Variable(names[i], secrets[i].value)
  {
    AssignedIff(PathsOf(secrets));
    var names := AssignNames(PathsOf(secrets), []).value;
    forall i | 0 <= i < |secrets|
      ensures IsName(names[i]) && VariablesOf(secrets)[i] == Variable(names[i], secrets[i].value)
    {
      assert PathsOf(secrets)[i] == secrets[i].path && PathsOf(secrets)[i] in PathsOf(secrets);
      assert names[i] == LastSegment(secrets[i].path);
    }
  }
}
