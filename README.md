# Git++ command core, modelled in Dafny

Git++ (`gpp`) is a command-line layer over Git. It installs itself as Git
aliases and adds interactive branch and staging commands. This project models
the three parts of it that hold decision logic, and proves what they promise:

- **`gpp rebuild`** (`Rebuild`): rewrites the `[alias]` section of the user's
  Git config. Every alias that is not a string, or whose text contains the
  substring `gpp`, is dropped. This also drops a user's own alias that merely
  mentions `gpp`, such as `lg = log --author=gppdev`.
  The fixed Git++ alias table (`goto = !gpp goto`) is then laid over what is
  left. Every other section is carried over.
- **`gpp doctor`** (`Doctor`): the health checks. The alias check compares the
  config's alias section with the table for every command of `GIT_COMMANDS`
  and collects the commands whose alias is missing or wrong. `execute` turns
  each failed check into one issue, in a fixed order, and reports "All checks
  passed" exactly when there is none.
- **`gpp drop`** (`Drop`): unstages staged files. Files named on the command
  line are checked against the staged changes. A name that is not staged
  aborts with exit code 1. Without file names, the staged changes are sorted
  in place by file name and offered as a menu. The selected changes are shown,
  the user confirms, and then one `git restore --staged` is issued per
  selected file, in selection order.

`Constants` holds the shared constants (`GPP`, the `goto` command, the alias
table, the exit codes), the shape of a parsed config and JavaScript's
`String.prototype.includes`. `Seqs` holds the order-preserving
`Array.prototype.filter` that rebuild.ts and drop.ts call. It also specifies
the list that the doctor's alias-check loop builds. `Wrappers` holds
`Option`, which stands for a value or `undefined`.

The environment is given as inputs:
- Whether `git --version` and `gpp --help` succeed is given as booleans.
- The config file is given as what reading it yields: no file, a read that
  throws, or a parsed config.
- The `git status` text and the status parser's output are given as inputs.
- The menu's answer and the confirmation's answer are given as inputs.
- Each `git restore --staged` call is given as the exit code it returns, or
  none when its result has none (as when git cannot be started). This is a
  function of the call's position in the run and the file. The same file
  named twice can therefore succeed once and fail once.
- `localeCompare` is given as a comparison `le` that must be a total preorder.

## Model

| member | source | states |
|---|---|---|
| Constants.Includes | src/commands/rebuild.ts:19 | `s.includes(sub)` is true exactly when `sub` occurs somewhere in `s` |
| Constants.GitconfigAliasesMentionGpp | src/shared/constants.ts:26-28 | every value of the installed alias table contains `gpp` |
| Rebuild.GenerateNewConfig | src/commands/rebuild.ts:13-25 | the result has the config's sections plus `alias`. Every other section is unchanged. The alias keys are exactly the table's keys and the kept keys. Every table key has exactly the table's value. An alias outside the table keeps its value iff it is a string that does not contain `gpp` |
| Rebuild.MissingAliasSectionIsEmpty | src/commands/rebuild.ts:16 | a config with no alias section rebuilds exactly like one with an empty alias section |
| Rebuild.StaleAliasesRemoved | src/commands/rebuild.ts:14-21 | every alias in the result whose value contains `gpp` is a table entry with the table's value |
| Rebuild.GenerateNewConfigIdempotent | src/commands/rebuild.ts:17-24 | rebuilding a rebuilt config changes nothing |
| Seqs.FilterAppend | src/commands/drop.ts:45 | filtering distributes over concatenation, so it keeps the input order |
| Doctor.CheckGitConfigAliases | src/commands/doctor.ts:79-115 | passes iff the file was read and every command's alias equals the table's entry, both possibly `undefined`. A missing file or a failed read fails. The collected list is exactly the failing commands in command order, and it is empty iff the check passes |
| Doctor.MismatchesExactly | src/commands/doctor.ts:93-102 | a command is reported iff it is checked and its alias differs from the table's entry |
| Doctor.MissingAliasSectionReportsTable | src/commands/doctor.ts:91 | with no alias section, the reported commands are exactly the checked commands that have a table entry, in order |
| Doctor.RebuiltConfigPassesAliasCheck | src/commands/doctor.ts:93-102 | if every checked command has a table entry, the alias check passes on any config `generateNewConfig` produced |
| Doctor.Execute | src/commands/doctor.ts:7-43 | one issue per failed check (git, gpp, aliases), in that order, and no other. "All checks passed" iff there is no issue, iff all three checks pass |
| Drop.FileNames | src/commands/drop.ts:92 | the staged file names: one per change, and a name is in the list iff some change has it |
| Drop.ValidateProvidedFileArgs | src/commands/drop.ts:91-104 | aborts iff some provided file is not staged. Then the exit code is `EXIT.FAILURE` and the reported files are the unstaged provided files, in argument order |
| Drop.InvalidFilesExactly | src/commands/drop.ts:93 | a file is reported invalid iff it was provided and is not staged |
| Drop.SelectedChangesExactly | src/commands/drop.ts:45 | a change is shown for confirmation iff it is staged and its file was selected |
| Drop.ValidatedFilesAllShown | src/commands/drop.ts:31-45 | when the provided files pass validation, each of them appears among the shown changes |
| Drop.SelectedChangesSorted | src/commands/drop.ts:37-45 | filtering changes already sorted by file name keeps them sorted, so after the menu the confirmation list is in name order |
| Drop.SortByFileName | src/commands/drop.ts:68-69 | the array ends sorted by file name under `le`, and it is a permutation of what it held |
| Drop.Choices | src/commands/drop.ts:70-76 | one choice per change, in the same order; each choice shows its change and yields its file name |
| Drop.PromptForChangesToUnstage | src/commands/drop.ts:64-89 | sorts the caller's changes in place (a sorted permutation) and offers the choices for the sorted order |
| Drop.UnstageFiles | src/commands/drop.ts:52-55 | makes one call per file, in order, on a prefix of the files. A call fails when its exit code is defined and not `EXIT.SUCCESS`; a call with no exit code counts as a success. No call before the last one made failed. The run ends with success iff no call fails, and then every file was attempted. Otherwise it stops at the first failing call and carries that call's code |
| Drop.ConfirmAndUnstage | src/commands/drop.ts:48-61 | declining issues no restore. The outcome is success iff the user confirmed and every restore succeeds; then all selected files are restored in order and the message says "change" iff exactly one file was unstaged. It is a failure iff the user confirmed and some restore fails (a defined exit code other than `EXIT.SUCCESS`); then the restores stop at the first failing one and the failure carries its code. A restore with no exit code counts as a success |
| Drop.Execute | src/commands/drop.ts:14-62 | "nothing staged" iff the status is empty or no staged change parsed. Provided files abort with code 1 iff one is not staged; otherwise they are the selection, and the changes stay unsorted. Without files the changes are sorted in place and offered as choices; "cancelled" iff the menu was interrupted and "no changes selected" iff its answer is empty. The flow reaches confirmation iff a selection was made; then the shown changes are the selected staged changes, "not confirmed" iff the user declines, and success iff the user confirms and every restore succeeds. Restores are made only after confirmation, in selection order, and a failure carries the first failing restore's code |

## Left out

- The status parser `parseGitChanges`, `getGitStatus` and `displayGroupedChanges` are not part of this model. They are called from src/commands/drop.ts but not defined in the files modelled. The parsed changes are an input.
- `readGitConfig`, `writeGitConfig` and the INI format itself are not part of this model. A config is a map from section name to a map from key to value, and a value is a string or something else. Keys the INI reader puts outside any section are not modelled.
- JavaScript object key order is not modelled: the config and its sections are maps.
- `aliases[cmd]` also finds keys inherited from `Object.prototype` (such as `toString`). The model looks up own keys only.
- `execa` calls, `fs.existsSync`, `process.exit`, console output and `chalk` colours are I/O. They are given as inputs or as outcome values.
- `confirmOrExit` is not part of this model (it is not defined in the files modelled). Its answer is the input `confirmed`, and declining ends the command without restoring anything. Its exit code is not modelled.
- The checkbox prompt itself is UI. Its answer is an input, and a Ctrl+C is `None` (the process then exits with code 0).
- Drop.SortByFileName: stability is not stated. `Array.prototype.sort` is stable; the insertion sort here swaps only strictly out-of-order neighbours, but no contract says so.
- Drop.SortByFileName: `localeCompare` is an abstract total preorder `le`, not a concrete locale collation.
- Doctor.Execute: the text printed for the alias check's count of missing aliases is not modelled. The count is the length of `missingOrIncorrect` in `Doctor.CheckGitConfigAliases`'s report.
- The other commands (`goto`, `create`, `publish`, `delete`, `rename`, `track`, `wipe`, `uncommit`, `pick`), `bin/gpp.ts` and `postinstall.js` are straight sequences of Git calls and prompts, and are not modelled.
- `safePrompt`, `processCommand` and `nl` in src/shared/helpers.ts only print and exit. Their one rule, that a defined exit code other than `EXIT.SUCCESS` ends the process, is Drop.EndsProcess (src/shared/helpers.ts:42). A result without an exit code does not end it.
