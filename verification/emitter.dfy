/** Emitting snippet files: the output path of each snippet, the rendering
    of its content through the template, and the error values the emitting
    functions hand back. The filesystem is represented by the outcome it
    gives each call (`mkdir`, and create plus write per path). Files are
    known by their path strings: two distinct strings that the operating
    system resolves to one file are not told apart. */
module Emitter {
  import opened Outcomes
  import Replacer
  import Config

  function SnippetExtension(): string { ".sublime-snippet" }

  /** `path + "/" + filename + snippetExtension` in `createSnippetFile`. */
  function SnippetPath(folder: string, trigger: string): string {
    folder + "/" + trigger + SnippetExtension()
  }

  /** Reads the trigger back out of a path in `folder`, if the path has the
      shape of a snippet file there. */
  function TriggerOf(folder: string, path: string): (t: Option<string>)
    ensures t.Some? ==> SnippetPath(folder, t.value) == path
  {
    var n, m := |folder| + 1, |SnippetExtension()|;
    if n + m <= |path| && path[..|folder|] == folder && path[|folder|] == '/'
       && path[|path| - m..] == SnippetExtension()
    then
      var t := path[n..|path| - m];
      assert path == path[..|folder|] + [path[|folder|]] + t + path[|path| - m..];
      Some(t)
    else None
  }

  /** The trigger is recovered from the path the snippet is written to. */
  lemma PathRoundTrip(folder: string, trigger: string)
    ensures TriggerOf(folder, SnippetPath(folder, trigger)) == Some(trigger)
  {
    var p := SnippetPath(folder, trigger);
    var n, m := |folder| + 1, |SnippetExtension()|;
    assert p[..|folder|] == folder;
    assert p[|folder|] == '/';
    assert p[|p| - m..] == SnippetExtension();
    assert p[n..|p| - m] == trigger;
  }

  /** Different triggers in one folder are written to different paths. */
  lemma PathInjective(folder: string, a: string, b: string)
    ensures SnippetPath(folder, a) == SnippetPath(folder, b) ==> a == b
  {
    PathRoundTrip(folder, a);
    PathRoundTrip(folder, b);
  }

  /** The template file's text around its three `%s` verbs, which take the
      body, the trigger and the scope in that order. */
  datatype Template = Template(beforeBody: string, beforeTrigger: string, beforeScope: string, after: string)

  /** `fmt.Sprintf(snippetTemplate, body, trigger, scope)`: the body fills the
      template's first slot, the trigger the second and the scope the third,
      and the template's own text is copied around them untouched. */
  function Render(tpl: Template, body: string, trigger: string, scope: string): (r: string)
    ensures var p1 := |tpl.beforeBody|;
      var q1 := p1 + |body|;
      var p2 := q1 + |tpl.beforeTrigger|;
      var q2 := p2 + |trigger|;
      var p3 := q2 + |tpl.beforeScope|;
      var q3 := p3 + |scope|;
      && |r| == q3 + |tpl.after|
      && r[..p1] == tpl.beforeBody
      && r[p1..q1] == body
      && r[q1..p2] == tpl.beforeTrigger
      && r[p2..q2] == trigger
      && r[q2..p3] == tpl.beforeScope
      && r[p3..q3] == scope
      && r[q3..] == tpl.after
  {
    tpl.beforeBody + body + tpl.beforeTrigger + trigger + tpl.beforeScope + scope + tpl.after
  }

  /** `getSnippetContent`: the snippet's file content. Only the body goes
      through the replacer, before it is put into the template; a body with
      no backslash and no percent sign goes in as it is. */
  function GetSnippetContent(tpl: Template, trigger: string, content: string, scope: string): (r: string)
    ensures Replacer.Plain(content) ==> r == Render(tpl, content, trigger, scope)
  {
    var body := Replacer.Replace(content);
    assert Replacer.Plain(content) ==> body == content by {
      if Replacer.Plain(content) {
        Replacer.PlainUnchanged(content);
      }
    }
    Render(tpl, body, trigger, scope)
  }

  /** What the operating system answers when a snippet file is created and
      then written. */
  datatype FsOutcome = FsOutcome(create: Option<Error>, write: Option<Error>)

  /** The file ends up holding its content: the create and the write both
      succeeded. A failed create writes nothing, and a failed write leaves
      the file without its content. */
  predicate Stored(o: FsOutcome) {
    o.create.None? && o.write.None?
  }

  /** `createSnippetFile`: opens `path/filename.sublime-snippet` and writes
      the content to it; the write is attempted only once the create has
      succeeded. `stored` says whether the file now holds the content. The
      errors of the create and the write land in a variable that shadows the
      function's own `err`, so what it returns is always nil, whether or not
      the file was stored. */
  method CreateSnippetFile(path: string, filename: string, content: string, fs: FsOutcome)
    returns (name: string, stored: bool, err: Option<Error>)
    ensures name == SnippetPath(path, filename)
    ensures stored <==> Stored(fs)
    ensures err == None
  {
    err := None;
    name := path + "/" + filename + SnippetExtension();
    stored := false;
    var innerErr := fs.create;
    if innerErr == None {
      innerErr := fs.write;
      stored := innerErr == None;
    }
  }

  /** The paths of the snippet files for the triggers `ks` in `folder`. */
  function Paths(folder: string, ks: set<string>): set<string> {
    set k | k in ks :: SnippetPath(folder, k)
  }

  /** Adding a new trigger adds exactly one new path. */
  lemma PathsAdd(folder: string, ks: set<string>, k: string)
    requires k !in ks
    ensures SnippetPath(folder, k) !in Paths(folder, ks)
    ensures Paths(folder, ks + {k}) == Paths(folder, ks) + {SnippetPath(folder, k)}
  {
    forall j | j in ks
      ensures SnippetPath(folder, j) != SnippetPath(folder, k)
    {
      PathInjective(folder, j, k);
    }
  }

  /** `files` holds exactly one path per trigger in `done`, with the content
      `contents` gives for that trigger. */
  predicate Emitted(files: map<string, string>, contents: map<string, string>, done: set<string>,
                    folderPath: string)
    requires done <= contents.Keys
  {
    && files.Keys == Paths(folderPath, done)
    && (forall k :: k in done ==> files[SnippetPath(folderPath, k)] == contents[k])
  }

  /** Writing the path of one more snippet keeps `Emitted`. */
  lemma EmitOne(files: map<string, string>, contents: map<string, string>, done: set<string>,
                folderPath: string, k: string)
    requires done <= contents.Keys && k in contents && k !in done
    requires Emitted(files, contents, done, folderPath)
    ensures Emitted(files[SnippetPath(folderPath, k) := contents[k]], contents, done + {k}, folderPath)
  {
    var name := SnippetPath(folderPath, k);
    PathsAdd(folderPath, done, k);
    forall j | j in done
      ensures SnippetPath(folderPath, j) in files && SnippetPath(folderPath, j) != name
    {
      assert SnippetPath(folderPath, j) in Paths(folderPath, done);
    }
  }

  /** One path per trigger: a folder has as many snippet paths as there are
      triggers. */
  lemma {:induction false} PathsSize(folder: string, ks: set<string>)
    ensures |Paths(folder, ks)| == |ks|
    decreases ks
  {
    if ks != {} {
      var k :| k in ks;
      var rest := ks - {k};
      assert rest + {k} == ks;
      PathsAdd(folder, rest, k);
      PathsSize(folder, rest);
    } else {
      assert Paths(folder, ks) == {};
    }
  }

  /** A folder emitted for `done` has one path per trigger. */
  lemma EmittedSize(files: map<string, string>, contents: map<string, string>, done: set<string>,
                    folderPath: string)
    requires done <= contents.Keys
    requires Emitted(files, contents, done, folderPath)
    ensures |files| == |done|
  {
    PathsSize(folderPath, done);
    assert |files| == |files.Keys|;
  }

  /** Moving `k` from the pending keys to the done keys. */
  lemma MoveToDone(all: set<string>, pending: set<string>, k: string)
    requires pending <= all && k in pending
    ensures (all - pending) + {k} == all - (pending - {k})
    ensures k !in all - pending
  {
  }

  /** The triggers among `ks` whose file in `folder` the filesystem stores. */
  function StoredKeys(folder: string, ks: set<string>, fs: string -> FsOutcome): set<string> {
    set k | k in ks && Stored(fs(SnippetPath(folder, k)))
  }

  /** Visiting one more trigger adds it to the stored ones exactly when its
      file is stored. */
  lemma StoredKeysAdd(folder: string, ks: set<string>, fs: string -> FsOutcome, k: string)
    ensures Stored(fs(SnippetPath(folder, k))) ==>
              StoredKeys(folder, ks + {k}, fs) == StoredKeys(folder, ks, fs) + {k}
    ensures !Stored(fs(SnippetPath(folder, k))) ==>
              StoredKeys(folder, ks + {k}, fs) == StoredKeys(folder, ks, fs)
  {
  }

  /** A trigger's path is among the stored paths exactly when the
      filesystem stores that trigger's file. */
  lemma StoredPath(folder: string, ks: set<string>, fs: string -> FsOutcome, k: string)
    requires k in ks
    ensures SnippetPath(folder, k) in Paths(folder, StoredKeys(folder, ks, fs))
            <==> Stored(fs(SnippetPath(folder, k)))
  {
    if SnippetPath(folder, k) in Paths(folder, StoredKeys(folder, ks, fs)) {
      var j :| j in StoredKeys(folder, ks, fs) && SnippetPath(folder, j) == SnippetPath(folder, k);
      PathInjective(folder, j, k);
    }
  }

  /** Visiting a trigger whose file is stored adds that file. */
  lemma EmitStored(files: map<string, string>, contents: map<string, string>, done: set<string>,
                   folder: string, fs: string -> FsOutcome, k: string)
    requires done <= contents.Keys && k in contents && k !in done
    requires Stored(fs(SnippetPath(folder, k)))
    requires Emitted(files, contents, StoredKeys(folder, done, fs), folder)
    ensures Emitted(files[SnippetPath(folder, k) := contents[k]], contents, StoredKeys(folder, done + {k}, fs), folder)
  {
    StoredKeysAdd(folder, done, fs, k);
    EmitOne(files, contents, StoredKeys(folder, done, fs), folder, k);
  }

  /** Visiting a trigger whose file is not stored adds nothing. */
  lemma EmitMissing(files: map<string, string>, contents: map<string, string>, done: set<string>,
                    folder: string, fs: string -> FsOutcome, k: string)
    requires done <= contents.Keys && k in contents
    requires !Stored(fs(SnippetPath(folder, k)))
    requires Emitted(files, contents, StoredKeys(folder, done, fs), folder)
    ensures Emitted(files, contents, StoredKeys(folder, done + {k}, fs), folder)
  {
    StoredKeysAdd(folder, done, fs, k);
  }

  /** Once every trigger is visited, a trigger's path is present exactly when
      the filesystem stores it, it holds the trigger's content, and there are
      as many paths as stored triggers. */
  lemma EmitFinish(files: map<string, string>, contents: map<string, string>, ks: set<string>,
                   folder: string, fs: string -> FsOutcome)
    requires ks <= contents.Keys
    requires Emitted(files, contents, StoredKeys(folder, ks, fs), folder)
    ensures forall k :: k in ks ==>
              (SnippetPath(folder, k) in files <==> Stored(fs(SnippetPath(folder, k))))
    ensures forall k :: k in ks && Stored(fs(SnippetPath(folder, k))) ==>
              files[SnippetPath(folder, k)] == contents[k]
    ensures |files| == |StoredKeys(folder, ks, fs)|
  {
    EmittedSize(files, contents, StoredKeys(folder, ks, fs), folder);
    forall k | k in ks
      ensures SnippetPath(folder, k) in files <==> Stored(fs(SnippetPath(folder, k)))
    {
      StoredPath(folder, ks, fs, k);
    }
    forall k | k in ks && Stored(fs(SnippetPath(folder, k)))
      ensures files[SnippetPath(folder, k)] == contents[k]
    {
      assert k in StoredKeys(folder, ks, fs);
    }
  }

  /** `createSnippetsInFolder`: writes one file per snippet, at the path
      named after its trigger, holding its rendered content. `files` maps
      each path the loop stores to the content it holds: a snippet's path is
      present exactly when the filesystem stores it, and no two snippets
      share a path. The results of the single writes are ignored and the
      returned error is never set, even when some snippet's path is
      missing. */
  method CreateSnippetsInFolder(snippets: Config.Section, folderPath: string, snippetScope: string,
                                tpl: Template, fs: string -> FsOutcome)
    returns (files: map<string, string>, err: Option<Error>)
    ensures err == None
    ensures files.Keys == Paths(folderPath, StoredKeys(folderPath, snippets.Keys, fs))
    ensures forall k :: k in snippets ==>
              (SnippetPath(folderPath, k) in files <==> Stored(fs(SnippetPath(folderPath, k))))
    ensures forall k :: k in snippets && Stored(fs(SnippetPath(folderPath, k))) ==>
              files[SnippetPath(folderPath, k)] == GetSnippetContent(tpl, k, snippets[k], snippetScope)
    ensures |files| == |StoredKeys(folderPath, snippets.Keys, fs)|
  {
    err := None;
    files := map[];
    ghost var contents := map k | k in snippets :: GetSnippetContent(tpl, k, snippets[k], snippetScope);
    var pending, done := snippets.Keys, {};
    while pending != {}
      invariant pending <= snippets.Keys && done == snippets.Keys - pending
      invariant Emitted(files, contents, StoredKeys(folderPath, done, fs), folderPath)
      decreases pending
    {
      var k :| k in pending;
      var snippetContent := GetSnippetContent(tpl, k, snippets[k], snippetScope);
      var name, stored, _ := CreateSnippetFile(folderPath, k, snippetContent, fs(SnippetPath(folderPath, k)));
      if stored {
        EmitStored(files, contents, done, folderPath, fs, k);
        files := files[name := snippetContent];
      } else {
        EmitMissing(files, contents, done, folderPath, fs, k);
      }
      MoveToDone(snippets.Keys, pending, k);
      done, pending := done + {k}, pending - {k};
    }
    EmitFinish(files, contents, snippets.Keys, folderPath, fs);
  }

  /** The output target of a rule: the sub-folder of the user's snippet
      directory, and the scope written into each snippet. */
  datatype Target = Target(subfolder: string, scope: string)

  function GoTarget(): Target { Target("/go", "source.go") }
  function PhpTarget(): Target { Target("/php", "source.php") }

  /** `convGoTo` / `convPHPTo`: creates the target folder and, unless that
      fails, writes the snippets into it. The folder-creation error is
      returned as is, an "already exists" error included, and then no file
      is written. */
  method ConvTo(sublimeUserPath: string, target: Target, snippets: Config.Section, tpl: Template,
                mkdir: string -> Option<Error>, fs: string -> FsOutcome)
    returns (files: map<string, string>, err: Option<Error>)
    ensures var folder := sublimeUserPath + target.subfolder;
      mkdir(folder).Some? ==> files == map[] && err == mkdir(folder)
    ensures var folder := sublimeUserPath + target.subfolder;
      mkdir(folder).None? ==>
        && err == None
        && files.Keys == Paths(folder, StoredKeys(folder, snippets.Keys, fs))
        && forall k :: k in snippets && Stored(fs(SnippetPath(folder, k))) ==>
             files[SnippetPath(folder, k)] == GetSnippetContent(tpl, k, snippets[k], target.scope)
  {
    var snippetsFolder := sublimeUserPath + target.subfolder;
    err := mkdir(snippetsFolder);
    if err.Some? {
      return map[], err;
    }
    files, err := CreateSnippetsInFolder(snippets, snippetsFolder, target.scope, tpl, fs);
  }

  /** The Go and PHP targets never share an output path string. */
  lemma TargetsDisjoint(sublimeUserPath: string, a: string, b: string)
    ensures SnippetPath(sublimeUserPath + GoTarget().subfolder, a)
         != SnippetPath(sublimeUserPath + PhpTarget().subfolder, b)
  {
    var n := |sublimeUserPath|;
    assert SnippetPath(sublimeUserPath + GoTarget().subfolder, a)[n + 1] == 'g';
    assert SnippetPath(sublimeUserPath + PhpTarget().subfolder, b)[n + 1] == 'p';
  }
}
