# Shells — Nix flake environment switcher, modelled in Dafny

The extension lets a VS Code user pick a `flake.nix` in the workspace and "enter" its
development environment. It runs `nix develop <dir> --command env` and parses the printed
`NAME=value` lines into a dictionary. It stores that dictionary in the workspace settings
`terminal.integrated.env.linux` and `terminal.integrated.env.osx`, and it injects an
`eval "$(nix print-dev-env '<dir>')"` command into every terminal opened while the
environment is active. A configured flake path is accepted only when its resolved path starts,
as text, with the resolved workspace root and `lstat` reports a regular file.

This project models the logic in `src/extension.ts` and proves properties of it:

- `text.dfy` (module `Text`): JavaScript's `split` on one character, with `join`,
  `startsWith` and `indexOf`.
- `env_parser.dfy` (module `EnvParser`): the parser of `env` output.
  - `ParseEnvOutput` is the loop over the lines, proved against the function `ParseEnv`.
  - `GetFlakeEnvironment` maps how the process ended to a dictionary or an error.
- `shell_quote.dfy` (module `ShellQuote`): the single-quote escape and the POSIX shell's
  reading of a single-quoted word (Shell Command Language, sections 2.2.1 and 2.2.2).
- `posix_path.dfy` (module `PosixPath`): Node's POSIX `path.resolve`, `path.normalize` and
  `path.dirname`, over lists of segments.
- `flake_path.dfy` (module `FlakePath`): `validateFlakePath`, plus the corrected containment
  check.
- `session.dfy` (module `Extension`): the class `Session`.
  - Its fields are the module-level `currentFlakePath`, `flakeEnvironment` and
    `isEnvironmentActive`, plus the two workspace settings the extension writes.
  - The enter, exit and select commands are methods that update these fields.
  - The terminal-open guard and the injection return the `sendText` calls they make.

Host services are inputs:

- whether `which nix` succeeds;
- how `nix develop` ends for a directory (an exit code and the whole stdout, or a spawn
  error);
- whether each settings write is accepted;
- `fs.lstatSync`, as an oracle from path to file kind;
- the process's working directory;
- the quick-pick choice.

Facts about the code that the model makes explicit:

- A stored dictionary does not imply an active environment. The code only guarantees that
  an active environment has a dictionary (`Session.Valid`).
  - `flakeEnvironment` is assigned before the two settings writes, and
    `isEnvironmentActive` only after them.
  - So a rejected write leaves a dictionary stored while inactive
    (`MappingStoredWhileInactive`).
  - If the environment was already active, a rejected write replaces the active dictionary.
- An active environment may hold an empty dictionary, for example when `env` printed
  nothing.
- "No flake selected" is JavaScript's `!currentFlakePath`. The model treats an empty
  string as no flake too (`Session.HasFlake`).
- Selecting another flake while active keeps the environment active with the old
  dictionary. Later injections then use the new flake's directory (`Session.Select`).
- The dictionary is a plain object literal. Assigning the name `__proto__` on it calls the
  inherited setter, which ignores a string, so a `__proto__=...` line stores nothing
  (`EnvParser.Assign`).

## Model

| member | source | states |
|---|---|---|
| Text.Split | src/extension.ts:69 | `split('\n')` yields at least one piece, and no piece contains the separator |
| Text.JoinSplit | src/extension.ts:69 | joining the pieces of a split with the separator gives back the text, so no character of stdout is lost |
| Text.IndexOf | src/extension.ts:71 | the position of the first `=`, or the length when there is none: nothing before it is `=` |
| EnvParser.MatchLineCorrect | src/extension.ts:71-72 | a line yields (name, value) exactly when it is name + `=` + value, with name non-empty and free of `=` and value free of `\n`, `\r`, U+2028 and U+2029; the name ends at the first `=` and the value may contain `=` or be empty |
| EnvParser.MatchSimple | src/extension.ts:71-73 | every line of the form name=value with such a name and value yields exactly that pair |
| EnvParser.UnmatchedLines | src/extension.ts:71-72 | every line without `=`, and every line starting with `=`, yields nothing |
| EnvParser.CrlfLineSkipped | src/extension.ts:71-72 | every line ending in `\r` is skipped, because `.` does not match `\r` |
| EnvParser.ParsedNames | src/extension.ts:69-75 | a name is in the dictionary exactly when it is not `__proto__` (ignored by the object literal of line 50) and some line defines it |
| EnvParser.LastDefinitionWins | src/extension.ts:69-75 | the value of a name is the one on the last line that defines it; `__proto__` is never stored |
| EnvParser.AppendAssignment | src/extension.ts:73 | one more matching line assigns its value to its name and overrides any earlier one; a `__proto__` line changes nothing |
| EnvParser.RepeatedNameExample | src/extension.ts:69-75 | `A=1\nA=2` gives the dictionary with A mapped to 2 |
| EnvParser.ParseEnvOutput | src/extension.ts:69-75 | the loop that fills the dictionary line by line computes `ParseEnv(stdout)` |
| EnvParser.GetFlakeEnvironment | src/extension.ts:67-84 | success exactly when the process closes with code 0, and then the parsed stdout; a non-zero (or absent) code gives an error carrying that code; a spawn error gives an error carrying its message |
| ShellQuote.QuoteRoundTrip | src/extension.ts:262-265 | the shell reads the single-quoted word `'<escaped>'` back as exactly the original text |
| ShellQuote.InQuotesEscape | src/extension.ts:262 | inside single quotes, the escaped text followed by the closing quote reads back as the original text, whatever follows |
| ShellQuote.EscapeWithoutQuote | src/extension.ts:262 | text without `'` is left unchanged |
| ShellQuote.EscapeCounts | src/extension.ts:262 | the output has exactly three `'` per input `'` (those of the `'\''` sequences) and grows by three characters per quote |
| ShellQuote.EscapeAddsOnlyQuoting | src/extension.ts:262 | the escape introduces no character other than `'` and `\` |
| ShellQuote.QuotedExample | src/extension.ts:262-265 | a concrete directory with a quote is escaped and read back |
| PosixPath.ResolveInput | src/extension.ts:17-18 | the string `resolve` builds from an absolute working directory and its arguments is absolute |
| PosixPath.NormalizeResolved | src/extension.ts:17-18 | normalizing a resolved path changes nothing |
| PosixPath.ResolveAbsoluteArgument | src/extension.ts:17-18 | an absolute normal last argument resolves to itself |
| PosixPath.DirEnd | src/extension.ts:220 | the backwards scan of `dirname` finds the last separator (from index 1 on) that is followed by a name: after it come only that name and then separators; it reports none exactly when no such separator exists |
| PosixPath.DirnameTopLevel | src/extension.ts:220 | the directory of a top-level entry `/name` is `/` |
| PosixPath.DirnameOfChild | src/extension.ts:220 | the directory of dir/name is dir |
| FlakePath.ValidateFlakePath | src/extension.ts:15-32 | acceptance implies the resolved candidate starts, as text, with the resolved root, and lstat reports a regular file; an lstat failure rejects |
| FlakePath.WithinFileAccepted | src/extension.ts:15-31 | every regular file at or below the root is accepted |
| FlakePath.SiblingPassesPrefixCheck | src/extension.ts:21 | /ws-evil/flake.nix is accepted for root /ws although it is not inside it |
| FlakePath.ParentSiblingResolves | src/extension.ts:17 | `../name` from a root resolves to the root's parent followed by name |
| FlakePath.ParentEscapeRejectedAsWritten | src/extension.ts:17-23 | `../name` from a one-segment root is rejected unless name starts with the root's name |
| FlakePath.ContainedCheckAcceptsExactlyWithin | src/extension.ts:21-31 | the separator-aware check accepts exactly the regular files at or below the root |
| FlakePath.ParentEscapeRejected | src/extension.ts:17-23 | with the corrected check, climbing out with `..` into a differently named sibling is always rejected |
| Extension.Session.constructor | src/extension.ts:7-10 | at activation no flake is selected, no dictionary is stored and the environment is inactive |
| Extension.Session.Enter | src/extension.ts:203-250 | no flake, no nix, or a failed extraction changes nothing; otherwise the dictionary is stored, the settings are written in order until one is rejected, and the flag is set only after both writes; the result is Activated exactly when every step succeeds, and then both settings hold the stored dictionary |
| Extension.Session.Exit | src/extension.ts:268-288 | the dictionary and the flag are always cleared; each setting is reset in order until one write is rejected; the selection stays |
| Extension.Session.Select | src/extension.ts:169-189 | no flake files, or no choice, changes nothing; a choice sets the path and leaves the dictionary, the flag and the settings as they were |
| Extension.Session.InjectEnvironmentIntoTerminal | src/extension.ts:252-266 | calls are sent exactly when a dictionary is stored and a flake is selected; the shell then receives the comment line and, as a line of its own, the eval command for the flake's directory (with the comment's new line restored; see Findings) |
| Extension.Session.OnDidOpenTerminal | src/extension.ts:118-121 | a new terminal gets the injection exactly when the environment is active, a dictionary is stored and a flake is selected |
| Extension.MappingStoredWhileInactive | src/extension.ts:223-230 | after a successful extraction and a rejected settings write, a dictionary is stored while the environment is inactive |
| Extension.EvalCommandCarriesDirectory | src/extension.ts:259-265 | the quoted word between the command's fixed prefix and suffix reads back as the flake's directory |
| Extension.CommentSwallowsEval | src/extension.ts:264-265 | as written, the shell receives a single line, which starts with `#` and contains the eval command |
| Extension.EvalOnItsOwnLine | src/extension.ts:264-265 | when the comment ends with a new line, the eval command is the whole second line |

## Left out

- Spawning processes is not modelled. This covers `which nix`, `nix develop`, the
  accumulation of stdout and stderr chunks, and the 5-second and 60-second timeouts
  (src/extension.ts:37-43, 48-65). How the process ends is an input: an exit code, or
  none, together with the whole stdout; or a spawn error.
- The VS Code host is left out:
  - the status bar and `updateStatusBar`;
  - the messages and their follow-up actions (open a terminal, reload the window);
  - the quick pick's labels, and `findFiles`.
- The settings writes and their success are parameters. The "Enter Environment" follow-up
  after a selection is a later call of `Session.Enter`.
- `autoDetectFlake` (src/extension.ts:129-167) is not modelled. It is start-up glue that
  combines `findFiles`, the settings and `validateFlakePath`, and `validateFlakePath` itself
  is modelled.
- The real file system behind `fs.lstatSync` and `fs.existsSync` is not modelled. `lstat`
  is an oracle from path to file kind.
- Interleaving of asynchronous commands, such as two overlapping enter calls, is not
  modelled. Each method runs to completion.
- Windows path rules are not modelled. Node's `path` module is not part of this model: its
  POSIX `resolve`, `normalize` (with its internal `normalizeString`) and `dirname` are
  written after Node's POSIX implementation, over segments.
- Extension.Session.InjectEnvironmentIntoTerminal: sends the corrected calls of Findings
  row 2, with the comment ended by a new line, and so does `OnDidOpenTerminal`. The calls
  as written are `InjectionCallsAsWritten`, about which `CommentSwallowsEval` is proved.
- The terminal's line discipline is not modelled. `TerminalInput` ends a line added by
  `sendText` with a carriage return.

## Findings

| source | as written | input that shows it | evidently intended | confidence | as-written member | corrected member |
|---|---|---|---|---|---|---|
| src/extension.ts:21 | the resolved candidate must start with the resolved root as text | root `/ws`, flake path `/ws-evil/flake.nix` (a regular file): accepted | the candidate is the root or continues it after a `/` | not executed | FlakePath.SiblingPassesPrefixCheck | FlakePath.ContainedCheckAcceptsExactlyWithin |
| src/extension.ts:264 | the comment is sent with `addNewLine` false, so the eval command that follows lands on the comment's line | any flake directory without a carriage return: the shell receives one line, `# Entering Nix flake environmenteval "$(nix print-dev-env '…')"`, and runs no eval | the comment and the eval command each on a line of their own | not executed | Extension.CommentSwallowsEval | Extension.EvalOnItsOwnLine |
