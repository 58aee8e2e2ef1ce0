/**
 * The extension's module-level state (src/extension.ts, lines 7-10) and the commands that change
 * it: enter (lines 203-250), exit (lines 268-288) and select (lines 169-201), with the
 * terminal-open guard (lines 118-121) and the live injection (lines 252-266). Host services
 * — the `which nix` probe, the `nix develop` process, the settings writes, the quick pick —
 * are inputs; the two workspace settings the extension writes are fields of the session.
 */
module Extension {
  import opened Wrappers
  import opened Text
  import opened EnvParser
  import opened ShellQuote
  import opened PosixPath

  /** What the host gives one enter attempt: whether `which nix` exits with 0, how
      `nix develop` ends when run in a given directory, and whether the host accepts the
      writes of `env.linux` and `env.osx`. */
  datatype Host = Host(
    nixAvailable: bool,
    runNix: string -> ProcessOutcome,
    linuxWriteOk: bool,
    osxWriteOk: bool)

  /** Why an attempt that got past the checks failed; both end in the same error message. */
  datatype EnterFailure =
    | ExtractionFailed(error: ExtractError)
    | ConfigRejected(key: string)

  /** How `enterFlakeEnvironment` ends, by the message it shows. */
  datatype EnterResult =
    | NoFlakeSelected              // warning: no flake selected
    | NixNotInstalled              // error: nix is not installed or not in PATH
    | EnterFailed(cause: EnterFailure)
    | Activated                    // the environment is active

  /** How `selectFlake` ends. */
  datatype SelectResult =
    | NoFlakeFiles                 // warning: no flake.nix in the workspace
    | Dismissed                    // the quick pick was closed without a choice
    | Selected(path: string)

  /** One `terminal.sendText(text, addNewLine)` call. */
  datatype SendText = SendText(text: string, addNewLine: bool)

  const EnteringComment: string := "# Entering Nix flake environment"
  const EvalPrefix: string := "eval \"$(nix print-dev-env "
  const EvalSuffix: string := ")\""

  /** `eval "$(nix print-dev-env '<escaped dir>')"`. */
  function EvalCommand(flakeDir: string): string
  {
    EvalPrefix + Quote(flakeDir) + EvalSuffix
  }

  /** The two calls of lines 264-265, as written: the comment without a new line, then the
      eval command with one. */
  function InjectionCallsAsWritten(flakeDir: string): seq<SendText>
  {
    [SendText(EnteringComment, false), SendText(EvalCommand(flakeDir), true)]
  }

  /** The key the terminal sends when a new line is added. */
  const EnterKey: char := '\r'

  /** What the shell in the terminal receives from a series of sendText calls. */
  function TerminalInput(calls: seq<SendText>): string
    decreases |calls|
  {
    if calls == [] then []
    else calls[0].text + (if calls[0].addNewLine then [EnterKey] else []) + TerminalInput(calls[1..])
  }

  /** The directory embedded in the eval command is read back by the shell as exactly the
      directory: the single-quoted word between the fixed prefix and suffix unquotes to it. */
  lemma EvalCommandCarriesDirectory(flakeDir: string)
    ensures |EvalCommand(flakeDir)| == |EvalPrefix| + |Quote(flakeDir)| + |EvalSuffix|
    ensures Unquoted(EvalCommand(flakeDir)[|EvalPrefix|..|EvalCommand(flakeDir)| - |EvalSuffix|])
            == Some(flakeDir)
  {
    var c := EvalCommand(flakeDir);
    assert c[|EvalPrefix|..|c| - |EvalSuffix|] == Quote(flakeDir);
    QuoteRoundTrip(flakeDir);
  }

  lemma EvalCommandSingleLine(flakeDir: string)
    requires EnterKey !in flakeDir
    ensures EnterKey !in EvalCommand(flakeDir)
  {
    EscapeAddsOnlyQuoting(flakeDir, EnterKey);
    assert EnterKey !in EvalPrefix && EnterKey !in EvalSuffix;
  }

  /** The comment is one line, and the shell reads it as a comment. */
  lemma CommentLine()
    ensures EnterKey !in EnteringComment && EnteringComment[0] == '#'
  {
  }

  /** What two sendText calls deliver: each text, followed by the Enter key when asked. */
  lemma TwoCallsInput(first: SendText, second: SendText)
    ensures TerminalInput([first, second])
            == first.text + (if first.addNewLine then [EnterKey] else [])
               + (second.text + (if second.addNewLine then [EnterKey] else []))
  {
    var calls := [first, second];
    assert calls[1..] == [second] && calls[1..][1..] == [];
    var tail := second.text + (if second.addNewLine then [EnterKey] else []);
    assert TerminalInput([second]) == tail + [] == tail;
  }

  /** One line ended by `sep` splits into the line and an empty tail. */
  lemma SplitOneLine(line: string, sep: char)
    requires sep !in line
    ensures Split(line + [sep], sep) == [line, ""]
  {
    SplitWithoutSep(line, sep);
    SplitAppend(line, "", sep);
    assert line + [sep] + "" == line + [sep];
  }

  /** As written, the comment is not ended by a new line, so the eval command is appended to
      the comment: the shell receives a single line, and it begins with `#`. */
  lemma CommentSwallowsEval(flakeDir: string)
    requires EnterKey !in flakeDir
    ensures Split(TerminalInput(InjectionCallsAsWritten(flakeDir)), EnterKey)
            == [EnteringComment + EvalCommand(flakeDir), ""]
    ensures (EnteringComment + EvalCommand(flakeDir))[0] == '#'
  {
    var comment, command := EnteringComment, EvalCommand(flakeDir);
    TwoCallsInput(SendText(comment, false), SendText(command, true));
    assert TerminalInput(InjectionCallsAsWritten(flakeDir)) == (comment + command) + [EnterKey];
    EvalCommandSingleLine(flakeDir);
    CommentLine();
    SplitOneLine(comment + command, EnterKey);
  }

  /** The calls with the comment ended by a new line, as the code evidently intends; the
      session sends these. */
  function InjectionCalls(flakeDir: string): seq<SendText>
  {
    [SendText(EnteringComment, true), SendText(EvalCommand(flakeDir), true)]
  }

  /** Two lines, each ended by `sep`, split into the two lines and an empty tail. */
  lemma SplitTwoLines(first: string, second: string, sep: char)
    requires sep !in first && sep !in second
    ensures Split(first + [sep] + (second + [sep] + ""), sep) == [first, second, ""]
  {
    SplitWithoutSep(first, sep);
    SplitWithoutSep(second, sep);
    SplitAppend(second, "", sep);
    SplitAppend(first, second + [sep] + "", sep);
  }

  /** With the comment on its own line, the eval command is the second line, whole. */
  lemma EvalOnItsOwnLine(flakeDir: string)
    requires EnterKey !in flakeDir
    ensures Split(TerminalInput(InjectionCalls(flakeDir)), EnterKey)
            == [EnteringComment, EvalCommand(flakeDir), ""]
  {
    var command := EvalCommand(flakeDir);
    TwoCallsInput(SendText(EnteringComment, true), SendText(command, true));
    assert TerminalInput(InjectionCalls(flakeDir))
           == EnteringComment + [EnterKey] + (command + [EnterKey] + "");
    EvalCommandSingleLine(flakeDir);
    CommentLine();
    SplitTwoLines(EnteringComment, command, EnterKey);
  }

  /** The module-level state of the extension and the two workspace settings it writes. */
  class Session {
    var currentFlakePath: Option<string>
    var flakeEnvironment: Option<Env>
    var isEnvironmentActive: bool
    /** The workspace-scoped settings `terminal.integrated.env.linux` and `env.osx`. */
    var linuxEnv: Option<Env>
    var osxEnv: Option<Env>

    /** What every command keeps: an active environment has a mapping and a flake path. The
        converse does not hold: a mapping can be stored while inactive. */
    ghost predicate Valid()
      reads this
    {
      isEnvironmentActive ==> flakeEnvironment.Some? && currentFlakePath.Some?
    }

    /** `!currentFlakePath` is false: a path is set and it is not the empty string. */
    predicate HasFlake()
      reads this
    {
      currentFlakePath.Some? && currentFlakePath.value != ""
    }

    /** Activation of the extension: nothing selected, nothing stored, inactive; the workspace
        settings hold whatever the host kept from before. */
    constructor (linuxSetting: Option<Env>, osxSetting: Option<Env>)
      ensures Valid()
      ensures currentFlakePath == None && flakeEnvironment == None && !isEnvironmentActive
      ensures linuxEnv == linuxSetting && osxEnv == osxSetting
    {
      currentFlakePath := None;
      flakeEnvironment := None;
      isEnvironmentActive := false;
      linuxEnv := linuxSetting;
      osxEnv := osxSetting;
    }

    /** How `nix develop` ends for the selected flake's directory. */
    function Extraction(host: Host): ProcessOutcome
      reads this
      requires currentFlakePath.Some?
    {
      host.runNix(Dirname(currentFlakePath.value))
    }

    /** `enterFlakeEnvironment`. The mapping is stored as soon as extraction succeeds, before
        the settings writes; the flag is set only after both writes. */
    method Enter(host: Host) returns (r: EnterResult)
      requires Valid()
      modifies this
      ensures Valid()
      ensures currentFlakePath == old(currentFlakePath)
      ensures !old(HasFlake()) ==> r == NoFlakeSelected && unchanged(this)
      ensures old(HasFlake()) && !host.nixAvailable ==> r == NixNotInstalled && unchanged(this)
      ensures old(HasFlake()) && host.nixAvailable && !ExitedCleanly(Extraction(host)) ==>
                unchanged(this)
                && r == EnterFailed(ExtractionFailed(
                          if Extraction(host).Closed? then NonZeroExit(Extraction(host).code)
                          else SpawnFailed(Extraction(host).message)))
      ensures old(HasFlake()) && host.nixAvailable && ExitedCleanly(Extraction(host)) ==>
                var env := ParseEnv(Extraction(host).stdout);
                && flakeEnvironment == Some(env)
                && linuxEnv == (if host.linuxWriteOk then Some(env) else old(linuxEnv))
                && osxEnv == (if host.linuxWriteOk && host.osxWriteOk then Some(env) else old(osxEnv))
                && isEnvironmentActive == ((host.linuxWriteOk && host.osxWriteOk) || old(isEnvironmentActive))
                && r == (if !host.linuxWriteOk then EnterFailed(ConfigRejected("env.linux"))
                         else if !host.osxWriteOk then EnterFailed(ConfigRejected("env.osx"))
                         else Activated)
      ensures r == Activated <==>
                old(HasFlake()) && host.nixAvailable && ExitedCleanly(Extraction(host))
                && host.linuxWriteOk && host.osxWriteOk
      ensures r == Activated ==> isEnvironmentActive && linuxEnv == osxEnv == flakeEnvironment
      ensures r != Activated ==> isEnvironmentActive == old(isEnvironmentActive)
    {
      if !HasFlake() {
        return NoFlakeSelected;
      }
      if !host.nixAvailable {
        return NixNotInstalled;
      }
      var flakeDir := Dirname(currentFlakePath.value);
      var extracted := GetFlakeEnvironment(flakeDir, host.runNix);
      if extracted.Failure? {
        return EnterFailed(ExtractionFailed(extracted.error));
      }
      flakeEnvironment := Some(extracted.value);
      if !host.linuxWriteOk {
        return EnterFailed(ConfigRejected("env.linux"));
      }
      linuxEnv := flakeEnvironment;
      if !host.osxWriteOk {
        return EnterFailed(ConfigRejected("env.osx"));
      }
      osxEnv := flakeEnvironment;
      isEnvironmentActive := true;
      r := Activated;
    }

    /** `exitFlakeEnvironment`: the mapping and the flag are cleared first, unconditionally;
        then each setting is reset, and a rejected write stops the rest. */
    method Exit(linuxWriteOk: bool, osxWriteOk: bool) returns (settingsReset: bool)
      modifies this
      ensures Valid()
      ensures flakeEnvironment == None && !isEnvironmentActive
      ensures currentFlakePath == old(currentFlakePath)
      ensures linuxEnv == (if linuxWriteOk then None else old(linuxEnv))
      ensures osxEnv == (if linuxWriteOk && osxWriteOk then None else old(osxEnv))
      ensures settingsReset == (linuxWriteOk && osxWriteOk)
    {
      flakeEnvironment := None;
      isEnvironmentActive := false;
      if !linuxWriteOk {
        return false;
      }
      linuxEnv := None;
      if !osxWriteOk {
        return false;
      }
      osxEnv := None;
      settingsReset := true;
    }

    /** `selectFlake` up to the choice (lines 169-189): the quick pick offers the found files
        and `choice` is the index picked, if any. Only the path changes; an active environment
        stays active with its old mapping. */
    method Select(flakeFiles: seq<string>, choice: Option<nat>) returns (r: SelectResult)
      requires Valid()
      requires choice.Some? ==> choice.value < |flakeFiles|
      modifies this
      ensures Valid()
      ensures flakeFiles == [] ==> r == NoFlakeFiles && unchanged(this)
      ensures flakeFiles != [] && choice.None? ==> r == Dismissed && unchanged(this)
      ensures flakeFiles != [] && choice.Some? ==>
                && r == Selected(flakeFiles[choice.value])
                && currentFlakePath == Some(flakeFiles[choice.value])
                && flakeEnvironment == old(flakeEnvironment)
                && isEnvironmentActive == old(isEnvironmentActive)
                && linuxEnv == old(linuxEnv) && osxEnv == old(osxEnv)
    {
      if flakeFiles == [] {
        return NoFlakeFiles;
      }
      if choice.None? {
        return Dismissed;
      }
      currentFlakePath := Some(flakeFiles[choice.value]);
      r := Selected(flakeFiles[choice.value]);
    }

    /** `injectEnvironmentIntoTerminal`, with the comment on its own line (see
        `CommentSwallowsEval`): when a mapping is stored and a flake is selected, the shell
        receives the comment line and then the eval command for the flake's directory;
        otherwise nothing is sent. */
    method InjectEnvironmentIntoTerminal() returns (sent: seq<SendText>)
      ensures sent != [] <==> flakeEnvironment.Some? && HasFlake()
      ensures sent != [] ==> sent == InjectionCalls(Dirname(currentFlakePath.value))
      ensures sent != [] && EnterKey !in Dirname(currentFlakePath.value) ==>
                Split(TerminalInput(sent), EnterKey)
                == [EnteringComment, EvalCommand(Dirname(currentFlakePath.value)), ""]
    {
      if flakeEnvironment.None? || !HasFlake() {
        return [];
      }
      var flakeDir := Dirname(currentFlakePath.value);
      sent := InjectionCalls(flakeDir);
      if EnterKey !in flakeDir {
        EvalOnItsOwnLine(flakeDir);
      }
    }

    /** The `onDidOpenTerminal` listener: a new terminal is injected into only while the
        environment is active and a mapping is stored (and a flake is selected). */
    method OnDidOpenTerminal() returns (sent: seq<SendText>)
      ensures sent != [] <==> isEnvironmentActive && flakeEnvironment.Some? && HasFlake()
      ensures sent != [] ==> sent == InjectionCalls(Dirname(currentFlakePath.value))
    {
      sent := [];
      if isEnvironmentActive && flakeEnvironment.Some? {
        sent := InjectEnvironmentIntoTerminal();
      }
    }
  }

  /** A rejected settings write after a successful extraction leaves a fresh session with a
      stored mapping while it is inactive: "mapping present iff active" does not hold. */
  method MappingStoredWhileInactive(path: string, host: Host) returns (s: Session)
    requires path != "" && host.nixAvailable && ExitedCleanly(host.runNix(Dirname(path)))
    requires !host.linuxWriteOk
    ensures s.flakeEnvironment == Some(ParseEnv(host.runNix(Dirname(path)).stdout))
    ensures !s.isEnvironmentActive
  {
    s := new Session(None, None);
    var selected := s.Select([path], Some(0));
    var result := s.Enter(host);
  }
}
