/** The shared constants and the shape of a parsed Git config
    (src/shared/constants.ts). */
module Constants {

  /** The executable name; every alias Git++ installs runs it. */
  const Gpp: string := "gpp"

  /** The command name of `COMMANDS.GOTO`. */
  const GotoCommand: string := "goto"

  /** The alias table installed into `[alias]`: `goto = !gpp goto`. */
  const GitconfigAliases: map<string, string> := map[GotoCommand := "!" + Gpp + " " + GotoCommand]

  const ExitSuccess: int := 0
  const ExitFailure: int := 1

  /** Name of the config section that holds Git aliases. */
  const AliasSection: string := "alias"

  /** A value the INI reader produced: a string, or something else
      (a boolean, an array, a nested object). */
  datatype IniValue = Str(text: string) | NonString

  type Section = map<string, IniValue>

  /** A parsed config file: section name to that section's keys. */
  type IniConfig = map<string, Section>

  /** `config.alias || {}`: the alias section, or an empty one when the
      config has none. */
  function AliasesOf(config: IniConfig): Section
  {
    if AliasSection in config then config[AliasSection] else map[]
  }

  /** `sub` occurs in `s` starting at index `i`. */
  ghost predicate OccursAt(s: string, sub: string, i: int)
  {
    0 <= i && i + |sub| <= |s| && s[i..i + |sub|] == sub
  }

  /** JavaScript's `s.includes(sub)`. */
  function Includes(s: string, sub: string): (b: bool)
    ensures b <==> exists i :: OccursAt(s, sub, i)
    decreases |s|
  {
    if |s| < |sub| then false
    else if s[..|sub|] == sub then assert OccursAt(s, sub, 0); true
    else
      var b := Includes(s[1..], sub);
      OccursShift(s, sub);
      b
  }

  /** Occurrences in `s` other than at 0 are the occurrences in `s[1..]`, shifted by one. */
  lemma OccursShift(s: string, sub: string)
    requires |s| >= |sub| && s[..|sub|] != sub
    ensures (exists i :: OccursAt(s, sub, i)) <==> (exists i :: OccursAt(s[1..], sub, i))
  {
    if exists i :: OccursAt(s, sub, i) {
      var i :| OccursAt(s, sub, i);
      assert i != 0;
      assert s[1..][i - 1..i - 1 + |sub|] == s[i..i + |sub|];
      assert OccursAt(s[1..], sub, i - 1);
    }
    if exists i :: OccursAt(s[1..], sub, i) {
      var i :| OccursAt(s[1..], sub, i);
      assert s[1..][i..i + |sub|] == s[i + 1..i + 1 + |sub|];
      assert OccursAt(s, sub, i + 1);
    }
  }

  /** The test `command.includes(GPP)` that marks an alias as installed by Git++. */
  predicate MentionsGpp(command: string)
  {
    Includes(command, Gpp)
  }

  /** Every alias in the installed table contains `gpp`. */
  lemma GitconfigAliasesMentionGpp()
    ensures forall k :: k in GitconfigAliases ==> MentionsGpp(GitconfigAliases[k])
  {
    assert OccursAt(GitconfigAliases[GotoCommand], Gpp, 1);
  }
}
