/** `gpp doctor`: the health checks and their summary
    (src/commands/doctor.ts). Whether `git --version` and `gpp --help` succeed
    is given as booleans; the config file is given as what reading it yields. */
module Doctor {
  import opened Wrappers
  import opened Seqs
  import opened Constants
  import Rebuild

  /** What the alias check finds on disk: no `.gitconfig`, a file whose reading
      throws, or the parsed config. */
  datatype ConfigFile = NoGitconfig | Unreadable | Loaded(config: IniConfig)

  /** What the alias check reports besides its verdict. */
  datatype AliasReport =
    | NoGitconfigFound
    | ReadFailed
    | Checked(missingOrIncorrect: seq<string>)

  /** `aliases[cmd]`, `undefined` when the key is absent. */
  function Lookup(aliases: Section, cmd: string): Option<IniValue>
  {
    if cmd in aliases then Some(aliases[cmd]) else None
  }

  /** `GITCONFIG_ALIASES[cmd]`, `undefined` for a command without an alias. */
  function ExpectedAlias(cmd: string): Option<IniValue>
  {
    if cmd in GitconfigAliases then Some(Str(GitconfigAliases[cmd])) else None
  }

  /** The strict equality `aliases[cmd] === GITCONFIG_ALIASES[cmd]`. */
  predicate AliasCorrect(aliases: Section, cmd: string)
  {
    Lookup(aliases, cmd) == ExpectedAlias(cmd)
  }

  /** The commands whose alias is missing or wrong, in command order. */
  function Mismatches(aliases: Section, commands: seq<string>): seq<string>
  {
    Filter(commands, cmd => !AliasCorrect(aliases, cmd))
  }

  /** The verdict `checkGitConfigAliases` should reach. */
  predicate AliasesHealthy(file: ConfigFile, commands: seq<string>)
  {
    file.Loaded? && forall i :: 0 <= i < |commands| ==> AliasCorrect(AliasesOf(file.config), commands[i])
  }

  /** `checkGitConfigAliases`: compare each command's alias against the table,
      collecting the commands that fail. */
  method CheckGitConfigAliases(file: ConfigFile, gitCommands: seq<string>)
    returns (passed: bool, report: AliasReport)
    ensures passed <==> AliasesHealthy(file, gitCommands)
    ensures file.NoGitconfig? ==> report == NoGitconfigFound
    ensures file.Unreadable? ==> report == ReadFailed
    ensures file.Loaded? ==> report == Checked(Mismatches(AliasesOf(file.config), gitCommands))
    ensures report.Checked? ==> (passed <==> report.missingOrIncorrect == [])
  {
    match file
    case NoGitconfig =>
      return false, NoGitconfigFound;
    case Unreadable =>
      return false, ReadFailed;
    case Loaded(config) =>
      var aliases := AliasesOf(config);
      var allCorrect := true;
      var missingOrIncorrect: seq<string> := [];
      for i := 0 to |gitCommands|
        invariant missingOrIncorrect == Mismatches(aliases, gitCommands[..i])
        invariant allCorrect <==> forall j :: 0 <= j < i ==> AliasCorrect(aliases, gitCommands[j])
      {
        var cmd := gitCommands[i];
        if Lookup(aliases, cmd) != ExpectedAlias(cmd) {
          allCorrect := false;
          missingOrIncorrect := missingOrIncorrect + [cmd];
        }
        assert gitCommands[..i + 1] == gitCommands[..i] + [cmd];
        FilterAppend(gitCommands[..i], [cmd], c => !AliasCorrect(aliases, c));
      }
      assert gitCommands[..|gitCommands|] == gitCommands;
      FilterNone(gitCommands, c => !AliasCorrect(aliases, c));
      return allCorrect, Checked(missingOrIncorrect);
  }

  /** A command is reported exactly when its alias is missing or wrong. */
  lemma MismatchesExactly(aliases: Section, commands: seq<string>, cmd: string)
    ensures cmd in Mismatches(aliases, commands) <==> cmd in commands && !AliasCorrect(aliases, cmd)
  {
  }

  /** Without an alias section every command that has an expected alias is
      reported, and only those. */
  lemma MissingAliasSectionReportsTable(config: IniConfig, commands: seq<string>)
    requires AliasSection !in config
    ensures Mismatches(AliasesOf(config), commands) == Filter(commands, cmd => cmd in GitconfigAliases)
  {
    FilterAgree(commands, cmd => !AliasCorrect(AliasesOf(config), cmd), cmd => cmd in GitconfigAliases);
  }

  /** After `gpp rebuild`, the alias check passes, provided every checked
      command has an entry in the alias table. */
  lemma RebuiltConfigPassesAliasCheck(config: IniConfig, commands: seq<string>)
    requires forall i :: 0 <= i < |commands| ==> commands[i] in GitconfigAliases
    ensures AliasesHealthy(Loaded(Rebuild.GenerateNewConfig(config)), commands)
    ensures Mismatches(AliasesOf(Rebuild.GenerateNewConfig(config)), commands) == []
  {
    var aliases := AliasesOf(Rebuild.GenerateNewConfig(config));
    forall i | 0 <= i < |commands|
      ensures AliasCorrect(aliases, commands[i])
    {
      assert commands[i] in aliases;
    }
    FilterNone(commands, cmd => !AliasCorrect(aliases, cmd));
  }

  /** The problems `execute` can list, in the order it runs the checks. */
  datatype Issue = GitNotInstalled | GppNotInPath | AliasesMissingOrIncorrect

  /** Position of the check that raises `issue`. */
  function Rank(issue: Issue): nat
  {
    match issue
    case GitNotInstalled => 0
    case GppNotInPath => 1
    case AliasesMissingOrIncorrect => 2
  }

  /** `execute`: run the three checks in turn and collect one issue per failed
      check; `healthy` is whether "All checks passed" is printed. */
  method Execute(gitInstalled: bool, gppInPath: bool, file: ConfigFile, gitCommands: seq<string>)
    returns (issues: seq<Issue>, healthy: bool)
    ensures GitNotInstalled in issues <==> !gitInstalled
    ensures GppNotInPath in issues <==> !gppInPath
    ensures AliasesMissingOrIncorrect in issues <==> !AliasesHealthy(file, gitCommands)
    ensures forall i, j :: 0 <= i < j < |issues| ==> Rank(issues[i]) < Rank(issues[j])
    ensures healthy <==> issues == []
    ensures healthy <==> gitInstalled && gppInPath && AliasesHealthy(file, gitCommands)
  {
    issues := [];
    if !gitInstalled {
      issues := issues + [GitNotInstalled];
    }
    if !gppInPath {
      issues := issues + [GppNotInPath];
    }
    var aliasCheck, _ := CheckGitConfigAliases(file, gitCommands);
    if !aliasCheck {
      issues := issues + [AliasesMissingOrIncorrect];
    }
    healthy := |issues| == 0;
  }
}
