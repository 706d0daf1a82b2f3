# snippets_converter in Dafny

`snippets_converter` turns Geany snippet definitions into Sublime Text
snippet files. The configuration is an INI file: each section names a
language, each key is a snippet trigger, and each value is a snippet body in
Geany's notation. For every registered conversion rule the program does the
following:

- It reads one section.
- It creates the language's folder under the user's Sublime directory.
- For each snippet it writes the file `<folder>/<trigger>.sublime-snippet`.
  The file holds a template filled with three things, in this order:
  - the body, after Geany escapes and markers are replaced by Sublime text;
  - the trigger;
  - the scope.

The model has six modules:

- `Outcomes`: the `Option` and `Result` types, and the error values the
  program passes around. `SectionNotFound` is the INI library's missing
  section error. `FsError` is any filesystem error.
- `Replacer`: the eight-entry replacement table and Go's `strings.Replacer`
  semantics for it.
  - `Apply` is the recursive specification: scan left to right, the earliest
    table entry whose key starts at the current position wins, and resume
    after the key.
  - `ReplaceScan` is the index-and-`last` loop the Go library runs, and it is
    proved equal to `Replace`.
  - Lemmas cover four things:
    - each entry's expansion;
    - text at which no key starts copied verbatim, stray `\` and `%`
      included;
    - the table being prefix-free, so its order never matters;
    - the absence of rescanning: no key survives in the output.
- `Config`: the parsed configuration as section name to (trigger to body),
  and `getSectionKeys`.
- `Registry`: conversion rules, with the reader represented by its outcome
  and the writer by the output target it writes to. Also `addConvertRule`
  and `convert`. `convert` decides which writers are called, and with which
  snippets.
- `Emitter`: output paths, the template render, `createSnippetFile`,
  `createSnippetsInFolder` and `convGoTo`/`convPHPTo`. The filesystem is a
  parameter: `mkdir` answers with an optional error, and `fs` gives the
  create and write outcomes for each path. A file holds its content only
  when both its create and its write succeed. The per-file errors are
  dropped all the same.
- `Program`: `main`, which registers the Go rule only, runs the registry
  and calls the Go writer when `convert` says so. It also has a worked Go
  example.

Characters stand for bytes. Every key of the table is ASCII, so a match
never starts inside a multi-byte character, and the character model and Go's
byte scan agree.

## Model

| member | source | states |
|---|---|---|
| Replacer.FirstMatch | main.go:94-103 | The lookup returns an entry of the table whose key starts the text. |
| Replacer.FirstMatchSpec | main.go:94-103 | The lookup finds nothing exactly when no key of the table starts the text. When it finds an entry, no earlier entry's key starts the text, so the earliest argument has priority. |
| Replacer.Apply | main.go:94-103 | The scan neither overlaps nor skips: with a table that writes every key back as it is, the output is the input. |
| Replacer.Replace | main.go:193 | Every replacement text is non-empty, so the result is empty exactly when the body is. |
| Replacer.TablePrefixFree | main.go:95-102 | No key of the program's table is a prefix of another key. In particular `%block%` is not a prefix of `%block_cursor%`. |
| Replacer.AtMostOneMatch | main.go:95-102 | In a prefix-free table, at most one entry's key starts any given text. |
| Replacer.ReplaceKey | main.go:94-103 | A key at the head of the input becomes its replacement. The scan then continues on the text after the key and never looks at the replacement. |
| Replacer.EscapesAndMarkers | main.go:95-102 | `\n`, `\t` and `\s` become newline, tab and space. Each of the five `%…%` markers becomes its fixed expansion. |
| Replacer.ReplaceCopiesHead | main.go:94-103 | A first character that is neither `\` nor `%` is copied, and the scan continues with the next character. |
| Replacer.CopyUnmatched | main.go:94-103 | Text at none of whose positions a key starts is copied unchanged and in order, ahead of whatever the rest of the input becomes. This includes a `\` or `%` that starts no key. |
| Replacer.UnmatchedLeadsKept | main.go:94-103 | A backslash before a letter other than `n`, `t` or `s`, and a lone `%`, are copied: `\d 50%` comes out unchanged. |
| Replacer.CopyVerbatim | main.go:94-103 | Text with no `\` and no `%` is copied unchanged and in order, ahead of whatever the rest of the input becomes. |
| Replacer.PlainUnchanged | main.go:94-103 | A body with no backslash and no percent sign comes out unchanged. |
| Replacer.ReplaceSplit | main.go:94-103 | Plain text, then a key, then more text, become the plain text, then the key's expansion, then the replacement of the rest. |
| Replacer.GoFuncExample | main.go:100-102 | `func %cursor%%block_cursor%` becomes `func ${1:content}{\n\t${1:content}\n}\n`. The two adjacent markers are each expanded once. |
| Replacer.SameMatch | main.go:95-102 | Two tables with the same entries, the first prefix-free, pick the same entry for any text, or both pick none. |
| Replacer.OrderIrrelevant | main.go:94-103 | Reordering or repeating the entries of a prefix-free table never changes the result of the scan. |
| Replacer.TableOrderIrrelevant | main.go:94-103 | Any argument order of the program's eight pairs gives the same replacer. |
| Replacer.OutputPrefix | main.go:94-103 | Text at the head of the output that holds no character an expansion starts with was already at the head of the input. |
| Replacer.NoKeyRemains | main.go:94-103 | After one pass, no escape and no marker occurs anywhere in the output, because the output is never rescanned and no expansion contains `\` or `%`. |
| Replacer.ReplaceScan | main.go:193 | Go's scan computes the same text as the recursive definition. |
| Replacer.ScanStep | main.go:193 | One position of Go's scan keeps the invariant: output so far, then pending text, then the replacement of the unscanned rest, make up the whole result. The step always advances. |
| Config.GetSectionKeys | main.go:150-164 | An absent section gives the not-found error and an empty map. A present section gives no error and a map with the section's keys, each with the section's value. |
| Registry.AddConvertRule | main.go:34-39 | The key now maps to the new rule, the key set grows by that key only, and every other rule is unchanged. |
| Registry.AddConvertRuleOverwrites | main.go:34-39 | Registering twice under one key keeps only the second rule. |
| Registry.AddConvertRuleCommutes | main.go:34-39 | Rules under different keys can be registered in either order with the same result. |
| Registry.Convert | main.go:41-55 | Every rule is either run or skipped, never both. A rule's writer is called exactly when its reader succeeded, with the reader's snippets. A skipped rule is recorded with its reader's error. |
| Emitter.TriggerOf | main.go:201 | When a path is read back as a trigger, building the path from that trigger gives the same path. |
| Emitter.PathRoundTrip | main.go:201 | The trigger is recovered from the path the snippet is written to. |
| Emitter.PathInjective | main.go:201 | Different triggers in one folder are written to different paths. |
| Emitter.Render | main.go:191-196 | The body fills the template's first slot, the trigger the second and the scope the third. The template's own text is copied around them untouched. |
| Emitter.GetSnippetContent | main.go:190-197 | Only the body goes through the replacer, and before templating: a body with no `\` and no `%` goes into the template as it is. |
| Emitter.CreateSnippetFile | main.go:199-212 | The file name is `path + "/" + filename + ".sublime-snippet"`. The file holds the content exactly when the create and the write both succeed. The returned error is always nil, whatever the create and the write report. |
| Emitter.PathsAdd | main.go:201 | A new trigger adds exactly one new path, distinct from the paths already there. |
| Emitter.PathsSize | main.go:176-185 | A folder holds as many snippet paths as there are triggers. |
| Emitter.StoredKeysAdd | main.go:176-185 | Visiting one more snippet adds it to the stored ones exactly when its file is stored. |
| Emitter.StoredPath | main.go:176-185 | A snippet's path is among the stored paths exactly when its own file is stored. |
| Emitter.EmitOne | main.go:176-185 | Adding one more snippet's path keeps the invariant: one path per trigger so far, each with that trigger's content. |
| Emitter.EmitStored | main.go:176-185 | Visiting a snippet whose file is stored adds that file and keeps the invariant. |
| Emitter.EmitMissing | main.go:176-185 | Visiting a snippet whose file is not stored adds nothing and keeps the invariant. |
| Emitter.EmittedSize | main.go:176-185 | There are exactly as many paths as triggers recorded. |
| Emitter.EmitFinish | main.go:176-185 | After the loop, a snippet's path is present exactly when the filesystem stores it, it holds the snippet's content, and there are as many paths as stored snippets. |
| Emitter.CreateSnippetsInFolder | main.go:172-188 | A snippet's path, named after its trigger, is present exactly when the filesystem stores it, and then holds the rendered content. No other path is written, and no two snippets share a path. The returned error is always nil, even when some snippet's path is missing. |
| Emitter.ConvTo | main.go:137-147 | If the folder cannot be created, that error is returned and nothing is written. Otherwise the error is nil, and each stored snippet's file holds its rendered content with the target's scope. |
| Emitter.TargetsDisjoint | main.go:122 | The Go folder and the PHP folder never share an output path string. |
| Program.ReadRule | main.go:133-135 | The Go reader succeeds exactly when the section exists, giving its contents, and otherwise fails with the not-found error. |
| Program.Run | main.go:106-114 | Only `convert_go` is registered, and the Go writer is called exactly when `convert` runs the rule. Without a `Go` section the rule is skipped and nothing is written. With one, the rule runs: if the `go` folder cannot be created, no file is written; otherwise every snippet the filesystem stores has its path with its rendered content, and no other path is written. |
| Program.GoExamplePath | main.go:137-146 | The Go snippet `fn` goes to `<user path>/go/fn.sublime-snippet`. |
| Program.GoExample | main.go:190-197 | The Go snippet `fn = func %cursor%%block_cursor%` renders the template with the expanded body, `fn` and `source.go`. |

## Left out

- Process setup in `init` (main.go:76-92): environment variables, the
  executable's directory, reading the template file and the panics on
  failure. These are I/O. The user path and the template are parameters of
  `Program.Run`.
- INI parsing by `gopkg.in/ini.v1` is a foreign library. The configuration
  is modelled already parsed, as nested maps. So value interpolation, the
  `DEFAULT` section and the library's key order are not modelled.
- `fmt.Sprintf` is modelled for a template with exactly three `%s` verbs:
  four literal pieces around the body, the trigger and the scope. `%%`
  escapes, other verbs, and a template with too few or too many verbs
  (where Go writes `%!s(MISSING)` or `%!(EXTRA …)`) are not modelled.
- Filesystem effects are not modelled: `os.Mkdir` with mode 0755,
  `os.Create`, `os.Chmod` with mode 0644, the write and the close. The model
  keeps the path each call gets, the error values it hands back, and whether
  a file ends up holding its content. `CreateSnippetsInFolder` reports the
  files that hold their full content as a map from path to content. A file
  that is created but whose write fails is left empty or partly written; it
  is not in that map, and its partial content is not modelled. The errors'
  own text (operation, path, cause) is not modelled either.
- Console output (`fmt.Printf`, `fmt.Println`) is left out.
- Path resolution is not modelled: case folding, `.` and `..` segments, and
  a `/` inside a trigger. Files are known by their path strings, so two
  distinct paths that name one file (`Fn` and `fn` on a case-insensitive
  filesystem, a Go trigger `../php/x` beside a PHP trigger `x`) count as two.
  When that happens the program writes the one file twice, and Go's map
  order decides which content survives.
- Go's map iteration order is unspecified. `convert` and
  `createSnippetsInFolder` are modelled by picking an arbitrary unvisited
  key, and their contracts hold for every order.
- `convPHPFrom` and `convPHPTo` (main.go:116-131) are not registered in
  `main`. Their shared logic is `Emitter.ConvTo` with `Emitter.PhpTarget`,
  and the PHP reader is `Program.ReadRule` with section `PHP`. `Program.Run`
  covers only the Go rule, as `main` does.
- The commented-out rules in `main` (main.go:107-109) and the commented-out
  ten-file limit in `createSnippetsInFolder` (main.go:175-184) are dead code
  and are not modelled.
- Bytes are modelled as characters (see above). Go's byte-level fast path
  for single-byte keys does not apply: every key here is longer than one
  byte.
- The table is prefix-free, so its argument order never decides a result,
  and `%block%` never fires inside `%block_cursor%`.
  `Replacer.TablePrefixFree` and `Replacer.TableOrderIrrelevant` prove it.
