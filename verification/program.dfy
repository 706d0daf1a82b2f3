/** The program's entry point: it registers the Go rule, whose reader takes
    the `Go` section of the configuration and whose writer emits the
    snippets into the `go` folder with scope `source.go`, and runs the
    registry. */
module Program {
  import opened Outcomes
  import Config
  import Registry
  import Emitter
  import Replacer

  function GoRuleKey(): string { "convert_go" }
  function GoSection(): string { "Go" }

  /** What the process gets from outside: the user's snippet directory, the
      template file's text, and the answers of the filesystem. */
  datatype Env = Env(sublimeUserPath: string, template: Emitter.Template,
                     mkdir: string -> Option<Error>, fs: string -> Emitter.FsOutcome)

  /** The folder the Go snippets are written to. */
  function GoFolder(env: Env): string {
    env.sublimeUserPath + Emitter.GoTarget().subfolder
  }

  /** `convGoFrom` and `convPHPFrom` with the reader's two results folded
      into one outcome, as `convert` reads them. */
  method ReadRule(cfg: Config.Config, sectionName: string) returns (r: Result<Config.Section>)
    ensures r.Success? <==> sectionName in cfg
    ensures r.Success? ==> r.value == cfg[sectionName]
    ensures r.Failure? ==> r.error == SectionNotFound(sectionName)
  {
    var snippets, err := Config.GetSectionKeys(cfg, sectionName);
    if err.Some? {
      return Failure(err.value);
    }
    return Success(snippets);
  }

  /** `main`: registers `convert_go` and converts. The Go writer is called
      exactly when the `Go` section exists, with that section; then, unless
      the `go` folder cannot be created, every snippet of the section whose
      file the filesystem stores has its path, named after its trigger and
      holding its rendered content, and no other path is written. */
  method Run(cfg: Config.Config, env: Env)
    returns (ran: map<string, Config.Section>, skipped: map<string, Error>, files: map<string, string>)
    ensures GoSection() !in cfg ==>
      && ran == map[]
      && skipped == map[GoRuleKey() := SectionNotFound(GoSection())]
      && files == map[]
    ensures GoSection() in cfg ==> skipped == map[] && ran == map[GoRuleKey() := cfg[GoSection()]]
    ensures GoSection() in cfg && env.mkdir(GoFolder(env)).Some? ==> files == map[]
    ensures GoSection() in cfg && env.mkdir(GoFolder(env)).None? ==>
      && files.Keys == Emitter.Paths(GoFolder(env), Emitter.StoredKeys(GoFolder(env), cfg[GoSection()].Keys, env.fs))
      && forall k :: k in cfg[GoSection()] && Emitter.Stored(env.fs(Emitter.SnippetPath(GoFolder(env), k))) ==>
           files[Emitter.SnippetPath(GoFolder(env), k)]
             == Emitter.GetSnippetContent(env.template, k, cfg[GoSection()][k], Emitter.GoTarget().scope)
  {
    var ruleFrom := ReadRule(cfg, GoSection());
    var cm := Registry.AddConvertRule(map[], GoRuleKey(), ruleFrom, Emitter.GoTarget());
    ran, skipped := Registry.Convert(cm);
    if GoSection() in cfg {
      assert GoRuleKey() in ran;
      assert ran == map[GoRuleKey() := cfg[GoSection()]];
    } else {
      assert GoRuleKey() in skipped;
      assert ran == map[];
    }
    // The writer calls `convert` makes, with the errors they return dropped.
    files := map[];
    if GoRuleKey() in ran {
      var writeErr;
      files, writeErr := Emitter.ConvTo(env.sublimeUserPath, cm[GoRuleKey()].ruleTo, ran[GoRuleKey()],
                                        env.template, env.mkdir, env.fs);
    }
  }

  /** The Go example's file: the snippet with trigger `fn` is written to
      `<user path>/go/fn.sublime-snippet`. */
  lemma GoExamplePath(env: Env)
    ensures Emitter.SnippetPath(GoFolder(env), "fn") == env.sublimeUserPath + "/go/fn.sublime-snippet"
  {
    assert GoFolder(env) == env.sublimeUserPath + "/go";
  }

  /** The Go example's content: section `Go` holds
      `fn = func %cursor%%block_cursor%`, and the file holds the template
      filled with the expanded body, the trigger `fn` and scope `source.go`. */
  lemma GoExample(tpl: Emitter.Template, body: string)
    requires body == "func %cursor%%block_cursor%"
    ensures Emitter.GetSnippetContent(tpl, "fn", body, Emitter.GoTarget().scope)
         == Emitter.Render(tpl, "func ${1:content}{\n\t${1:content}\n}\n", "fn", "source.go")
  {
    Replacer.GoFuncExample(body);
  }
}
