/**
 * The environment extractor of the extension: the `close` handler of `getFlakeEnvironment`
 * (src/extension.ts, lines 67-79). The external `nix develop <dir> --command env` process is
 * not run here; what it produced — its exit code and the whole of its standard output, or a
 * spawn error — is an input.
 */
module EnvParser {
  import opened Wrappers
  import opened Text

  /** The `NodeJS.ProcessEnv` dictionary the parser fills: variable name to value. */
  type Env = map<string, string>

  /** The characters that JavaScript's `.` does not match: its line terminators. */
  predicate IsLineTerminator(c: char)
  {
    c == '\n' || c == '\r' || c == '\U{2028}' || c == '\U{2029}'
  }

  /** The group `(.*)` matches the whole of v: v holds no line terminator. */
  predicate DotStar(v: string)
  {
    forall j :: 0 <= j < |v| ==> !IsLineTerminator(v[j])
  }

  /** What it means for `^([^=]+)=(.*)$` to match `line` with groups `name` and `value`. */
  predicate Matches(line: string, name: string, value: string)
  {
    && line == name + "=" + value
    && name != ""
    && '=' !in name
    && DotStar(value)
  }

  /** `line.match(/^([^=]+)=(.*)$/)` followed by the truthiness test of `match[1]`:
      the two groups when the line matches, None otherwise. */
  function MatchLine(line: string): Option<(string, string)>
  {
    var i := IndexOf(line, '=');
    if i == 0 || i == |line| then None
    else if DotStar(line[i + 1..]) then Some((line[..i], line[i + 1..]))
    else None
  }

  /** The regular expression's match is unique, and MatchLine finds exactly it: the name is
      the text before the first `=`, the value everything after it. */
  lemma MatchLineCorrect(line: string, name: string, value: string)
    ensures MatchLine(line) == Some((name, value)) <==> Matches(line, name, value)
  {
    if Matches(line, name, value) {
      var i := IndexOf(line, '=');
      assert line[|name|] == '=';
      assert i == |name|;
      assert line[..i] == name;
      assert line[i + 1..] == value;
    }
  }

  /** Line `line` assigns variable `name`. */
  predicate Defines(line: string, name: string)
  {
    MatchLine(line).Some? && MatchLine(line).value.0 == name
  }

  /** The one name whose assignment on a plain object creates no entry: `env['__proto__'] = v`
      calls the setter the object inherits, which ignores a string value. */
  const ProtoKey: string := "__proto__"

  /** `env[name] = value` on the object literal `{}` of line 50. */
  function Assign(env: Env, name: string, value: string): Env
  {
    if name == ProtoKey then env else env[name := value]
  }

  /** The dictionary after the loop has assigned `env[name] = value` for every matching line,
      in line order. */
  function ParseLines(lines: seq<string>): Env
    decreases |lines|
  {
    if lines == [] then map[]
    else
      var env := ParseLines(lines[..|lines| - 1]);
      match MatchLine(lines[|lines| - 1])
      case Some((name, value)) => Assign(env, name, value)
      case None => env
  }

  /** The dictionary built from the captured standard output, split on `\n`. */
  function ParseEnv(stdout: string): Env
  {
    ParseLines(Split(stdout, '\n'))
  }

  /** Every name in the result comes from some matching line, and every matching line's name
      is in the result, except `__proto__`, which is never stored. */
  lemma {:induction false} ParsedNames(lines: seq<string>, name: string)
    ensures name in ParseLines(lines) <==>
              name != ProtoKey && exists i :: 0 <= i < |lines| && Defines(lines[i], name)
    decreases |lines|
  {
    if lines != [] {
      var init := lines[..|lines| - 1];
      ParsedNames(init, name);
      if exists i :: 0 <= i < |init| && Defines(init[i], name) {
        var i :| 0 <= i < |init| && Defines(init[i], name);
        assert lines[i] == init[i];
      }
      if exists i :: 0 <= i < |lines| && Defines(lines[i], name) {
        var i :| 0 <= i < |lines| && Defines(lines[i], name);
        if i < |init| {
          assert init[i] == lines[i];
        }
      }
    }
  }

  /** Last occurrence wins: the value of a name is the one on the last line that assigns it
      (a `__proto__` line stores nothing). */
  lemma {:induction false} LastDefinitionWins(lines: seq<string>, i: nat, name: string)
    requires i < |lines|
    requires Defines(lines[i], name)
    requires forall j :: i < j < |lines| ==> !Defines(lines[j], name)
    ensures name in ParseLines(lines) <==> name != ProtoKey
    ensures name != ProtoKey ==> ParseLines(lines)[name] == MatchLine(lines[i]).value.1
    decreases |lines|
  {
    var init := lines[..|lines| - 1];
    if name == ProtoKey {
      ParsedNames(lines, name);
    } else if i < |lines| - 1 {
      forall j | i < j < |init| ensures !Defines(init[j], name) {
        assert init[j] == lines[j];
      }
      assert init[i] == lines[i];
      LastDefinitionWins(init, i, name);
    }
  }

  /** The parse loop of lines 69-75: split on `\n`, then fill the dictionary in place, line by
      line. */
  method ParseEnvOutput(stdout: string) returns (env: Env)
    ensures env == ParseEnv(stdout)
  {
    var lines := Split(stdout, '\n');
    env := map[];
    for k := 0 to |lines|
      invariant env == ParseLines(lines[..k])
    {
      assert lines[..k + 1][..k] == lines[..k];
      var m := MatchLine(lines[k]);
      if m.Some? {
        env := Assign(env, m.value.0, m.value.1);
      }
    }
    assert lines[..|lines|] == lines;
  }

  /** How the `nix develop` child process ended: `close` with an exit code (null when a signal,
      such as the 60-second timeout's, ended it) and everything written to standard output, or
      an `error` event (the process could not be spawned). */
  datatype ProcessOutcome =
    | Closed(code: Option<int>, stdout: string)
    | SpawnError(message: string)

  /** The rejection reasons of `getFlakeEnvironment`. */
  datatype ExtractError =
    | NonZeroExit(code: Option<int>)   // `nix develop failed with code ${code}`
    | SpawnFailed(message: string)     // the spawn error, passed on

  predicate ExitedCleanly(outcome: ProcessOutcome)
  {
    outcome.Closed? && outcome.code == Some(0)
  }

  /** `getFlakeEnvironment(flakeDir)`: `runNix` stands for running `nix develop` in flakeDir.
      Exit code 0 resolves with the parsed output; any other ending rejects, carrying the code
      or the spawn error, and yields no dictionary. */
  method GetFlakeEnvironment(flakeDir: string, runNix: string -> ProcessOutcome)
    returns (r: Result<Env, ExtractError>)
    ensures r.Success? <==> ExitedCleanly(runNix(flakeDir))
    ensures r.Success? ==> r.value == ParseEnv(runNix(flakeDir).stdout)
    ensures runNix(flakeDir).Closed? && runNix(flakeDir).code != Some(0) ==>
              r == Failure(NonZeroExit(runNix(flakeDir).code))
    ensures runNix(flakeDir).SpawnError? ==> r == Failure(SpawnFailed(runNix(flakeDir).message))
  {
    var outcome := runNix(flakeDir);
    match outcome
    case Closed(code, stdout) =>
      if code == Some(0) {
        var env := ParseEnvOutput(stdout);
        r := Success(env);
      } else {
        r := Failure(NonZeroExit(code));
      }
    case SpawnError(message) =>
      r := Failure(SpawnFailed(message));
  }

  /** A line without `=`, or one that starts with `=` (an empty name), does not match. */
  lemma UnmatchedLines(line: string)
    ensures '=' !in line ==> MatchLine(line) == None
    ensures line != "" && line[0] == '=' ==> MatchLine(line) == None
  {
  }

  /** Output ending lines with `\r\n` leaves a `\r` at the end of each line, which `.` does not
      match: every such line is skipped. */
  lemma CrlfLineSkipped(line: string)
    requires line != [] && line[|line| - 1] == '\r'
    ensures MatchLine(line) == None
  {
  }

  /** One more line extends the dictionary by that line's assignment, if it has one. */
  lemma ParseLinesSnoc(lines: seq<string>, line: string)
    ensures ParseLines(lines + [line]) ==
              match MatchLine(line)
              case Some((name, value)) => Assign(ParseLines(lines), name, value)
              case None => ParseLines(lines)
  {
  }

  /** A line of the form name=value, with no `=` in the name and no terminator in the value. */
  lemma MatchSimple(name: string, value: string)
    requires name != "" && '=' !in name && DotStar(value)
    ensures MatchLine(name + "=" + value) == Some((name, value))
  {
    MatchLineCorrect(name + "=" + value, name, value);
  }

  /** Appending a line name=value assigns value to name, overriding any earlier value; a
      `__proto__` line leaves the dictionary as it was. */
  lemma AppendAssignment(lines: seq<string>, name: string, value: string)
    requires name != "" && '=' !in name && DotStar(value)
    ensures name != ProtoKey ==> ParseLines(lines + [name + "=" + value]) == ParseLines(lines)[name := value]
    ensures name == ProtoKey ==> ParseLines(lines + [name + "=" + value]) == ParseLines(lines)
  {
    MatchLineCorrect(name + "=" + value, name, value);
    ParseLinesSnoc(lines, name + "=" + value);
  }

  lemma TwoLines()
    ensures Split("A=1\nA=2", '\n') == ["A=1", "A=2"]
  {
    var a1, a2 := "A=1", "A=2";
    assert "A=1\nA=2" == a1 + ['\n'] + a2;
    SplitAppend(a1, a2, '\n');
    SplitWithoutSep(a1, '\n');
    SplitWithoutSep(a2, '\n');
  }

  lemma RepeatedNameLines()
    ensures ParseLines(["A=1", "A=2"]) == map["A" := "2"]
  {
    var a1, a2 := "A=1", "A=2";
    var n, v1, v2 := "A", "1", "2";
    assert a1 == n + "=" + v1 && a2 == n + "=" + v2;
    AppendAssignment([], n, v1);
    AppendAssignment([a1], n, v2);
  }

  /** A repeated name keeps the value of its last line. */
  lemma RepeatedNameExample()
    ensures ParseEnv("A=1\nA=2") == map["A" := "2"]
  {
    TwoLines();
    RepeatedNameLines();
  }
}
