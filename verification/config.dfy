/** The configuration the snippets come from, as the INI library leaves it
    once parsed: named sections, each a set of key/value pairs. A key is a
    snippet's trigger and its value the snippet's body. */
module Config {
  import opened Outcomes

  /** One section: trigger to snippet body. */
  type Section = map<string, string>

  /** The parsed configuration: section name to section. */
  type Config = map<string, Section>

  /** `getSectionKeys`: copies every key of the named section together with
      its value. An absent section gives the library's not-found error and an
      empty map, which the caller takes as "skip this rule". */
  method GetSectionKeys(cfg: Config, sectionName: string) returns (keys: Section, err: Option<Error>)
    ensures sectionName !in cfg ==> keys == map[] && err == Some(SectionNotFound(sectionName))
    ensures sectionName in cfg ==> err == None
    ensures sectionName in cfg ==> keys.Keys == cfg[sectionName].Keys
    ensures sectionName in cfg ==> forall k :: k in keys ==> keys[k] == cfg[sectionName][k]
  {
    keys := map[];
    if sectionName !in cfg {
      return keys, Some(SectionNotFound(sectionName));
    }
    var section := cfg[sectionName];
    var keyNames := section.Keys;
    while keyNames != {}
      invariant keyNames <= section.Keys
      invariant keys.Keys == section.Keys - keyNames
      invariant forall k :: k in keys ==> keys[k] == section[k]
      decreases keyNames
    {
      var v :| v in keyNames;
      keys := keys[v := section[v]];
      keyNames := keyNames - {v};
    }
    return keys, None;
  }
}
