/** `gpp rebuild`: rewrite the `[alias]` section of the Git config so that it
    holds exactly the current Git++ aliases plus the user's own aliases
    (src/commands/rebuild.ts). */
module Rebuild {
  import opened Constants

  /** An existing alias survives a rebuild when it is a string that does not
      contain the substring `gpp`. Every other value is dropped: a non-string,
      a stale Git++ alias, and also a user alias that merely mentions `gpp`
      (such as `log --author=gppdev`). */
  predicate KeepAlias(value: IniValue)
  {
    value.Str? && !MentionsGpp(value.text)
  }

  /** The installed alias table as config values. */
  function InstalledAliases(): Section
  {
    map k | k in GitconfigAliases :: Str(GitconfigAliases[k])
  }

  /** `generateNewConfig`: drop every stale alias, then lay the installed table
      over what is left; every other section is carried over. */
  function GenerateNewConfig(config: IniConfig): (r: IniConfig)
    // the alias section is always written, and no other section appears or vanishes
    ensures r.Keys == config.Keys + {AliasSection}
    // every other section is carried over unchanged
    ensures forall s :: s in config && s != AliasSection ==> r[s] == config[s]
    // the alias keys are exactly the kept user aliases and the installed ones
    ensures forall k :: k in r[AliasSection] <==>
      k in GitconfigAliases || (k in AliasesOf(config) && KeepAlias(AliasesOf(config)[k]))
    // every installed alias has exactly the table's value, whatever was there before
    ensures forall k :: k in GitconfigAliases ==> r[AliasSection][k] == Str(GitconfigAliases[k])
    // an alias outside the table is kept, with its value, iff it is a string that does not mention gpp
    ensures forall k :: k in AliasesOf(config) && k !in GitconfigAliases ==>
      ((k in r[AliasSection] && r[AliasSection][k] == AliasesOf(config)[k]) <==>
       KeepAlias(AliasesOf(config)[k]))
  {
    var existing := AliasesOf(config);
    var filtered := map k | k in existing && KeepAlias(existing[k]) :: existing[k];
    config[AliasSection := filtered + InstalledAliases()]
  }

  /** A config without an alias section rebuilds like one with an empty section. */
  lemma MissingAliasSectionIsEmpty(config: IniConfig)
    requires AliasSection !in config
    ensures GenerateNewConfig(config) == GenerateNewConfig(config[AliasSection := map[]])
  {
  }

  /** Every alias left in the rebuilt config that contains `gpp` is one of the
      installed aliases: stale Git++ aliases are gone. */
  lemma StaleAliasesRemoved(config: IniConfig, k: string)
    requires k in GenerateNewConfig(config)[AliasSection]
    requires GenerateNewConfig(config)[AliasSection][k].Str?
    requires MentionsGpp(GenerateNewConfig(config)[AliasSection][k].text)
    ensures k in GitconfigAliases
    ensures GenerateNewConfig(config)[AliasSection][k] == Str(GitconfigAliases[k])
  {
  }

  /** Rebuilding twice gives the same config as rebuilding once, because every
      installed alias itself contains `gpp` and is therefore dropped and re-added. */
  lemma GenerateNewConfigIdempotent(config: IniConfig)
    ensures GenerateNewConfig(GenerateNewConfig(config)) == GenerateNewConfig(config)
  {
    GitconfigAliasesMentionGpp();
    var once := GenerateNewConfig(config);
    var twice := GenerateNewConfig(once);
    var a1, a2 := once[AliasSection], twice[AliasSection];
    assert AliasesOf(once) == a1;
    forall k | k in a1
      ensures k in a2 && a2[k] == a1[k]
    {
      if k !in GitconfigAliases {
        assert KeepAlias(AliasesOf(config)[k]);
      }
    }
    assert a2 == a1;
  }
}
