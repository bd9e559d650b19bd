# md: Markdown to HTML converter, modelled in Dafny

`md` is a one-command PHP tool (md.php). It takes a Markdown file and optional
`--head`/`--tail` HTML fragments. It writes a new HTML file made of:

- the head fragment, with every `{{title}}` replaced by the document title;
- the converted Markdown body;
- the tail fragment, unchanged.

The title is the rest of the line after the first `"# "` in the Markdown text.
The output goes to `--directory`/`--output` when those are given. Otherwise it
goes next to the source file, named after it with `.html` for its extension.
The command refuses to overwrite an existing file.

The model has three modules:

- `Wrappers` (wrappers.dfy): `Option` and `Result`.
- `Text` (text.dfy): the pure string work.
  - `MatchHeading`/`ExtractTitle` model the regular expression `/# (.*)/`.
  - `ReplaceAll` models `str_replace`.
  - `DefaultTargetName` models the `getExtension`/`getBasename` naming rule.
  - The title match and `str_replace` each have a reference definition and lemmas tying the two together. `DefaultTargetName` has no separate reference definition; three case lemmas fix its value for every name: a stem and an extension, no dot, and a leading dot only.
- `Command` (command.dfy): the command itself.
  - `Assemble` is a pure function giving the outcome of one run: the first check that fails, or the file created and its contents.
  - `FileSystem` is a class whose `files` map (path to contents) the command changes.
  - `FileSystem.Execute` runs the checks (`Prepare`), then `touch` and three appends (`WriteTarget`). Its postcondition ties the result and the new map to `Assemble`.
  - Lemmas about `Assemble` state the check order, what a successful run writes, and the quirks of the code.

Things the command does not compute itself are inputs in the model:

- the option values (`Invocation`; `None` is an option not given);
- what `realpath` resolves (a map; a path missing from it is one `realpath` rejects);
- the files Finder yields, each with its directory's real path, its base name and its text (`Found`);
- the Markdown converter, an arbitrary total function `string -> string`.

PHP truthiness is kept. An option whose value is `""` or `"0"` counts as not given (`Command.Given`).

Where the code and its own help text disagree, the model follows the code:

- The help text (md.php:21-22) speaks of a title "beginning with a single '#'".
- The pattern is not anchored to the start of a line. `"## Notes"` gives the title `Notes`, and `"C# today"` gives `today` (`Text.SubheadingMatches`, `Text.MidLineMarkerMatches`).
- The "more than one source file" error carries only the source argument, as the code's message does. It carries no count of matches.
- The target-directory check (md.php:56) is modelled as written, as `TargetDirectoryMissing`. `Command.DirectoryCheckNeverFires` proves it cannot fire when `realpath` only returns existing paths.

## Model

| member | source | states |
|---|---|---|
| `Text.IndexOf` | md.php:104 | the result is the first position at or after `from` where the pattern occurs; `None` exactly when it occurs nowhere there |
| `Text.LineEnd` | md.php:104 | the capture `(.*)` stops at the first line feed after the marker, or at the end of the text |
| `Text.MatchHeading` | md.php:101-112 | `$matches`: no match exactly when `"# "` occurs nowhere in the text; a capture never holds a line feed |
| `Text.ExtractTitle` | md.php:101-112 | `$title`: never holds a line feed, and is `""` when the text has no `"# "` |
| `Text.MatchHeadingSpec` | md.php:101-112 | `MatchHeading(text) == Some(t)` if and only if `t` is what follows the first `"# "` of the text, up to the next line feed or the end (reference predicate `TitleAt`); both directions |
| `Text.MatchIsTitle` | md.php:103-111 | a match is the reference title at the first `"# "` |
| `Text.TitleIsMatch` | md.php:103-111 | a reference title is exactly what the match yields |
| `Text.FirstHeadingWins` | md.php:103-111 | after a prefix without `"# "`, the heading line gives the title, and every later `"# "` is ignored |
| `Text.FirstOfTwoHeadings` | md.php:103-111 | `"# Hello World\nBody text\n# Second Heading\n"` has the title `Hello World` |
| `Text.SubheadingMatches` | md.php:104 | the unanchored pattern takes `"## Notes"` as having the title `Notes` |
| `Text.MidLineMarkerMatches` | md.php:104 | the unanchored pattern takes `"# "` in the middle of a line as the start of the title |
| `Text.ReplaceAll` | md.php:136 | `str_replace` as a left-to-right scan; it has no contract of its own, and what it computes is stated by `ReplaceAllIsImplodeExplode`, `ReplaceAllSpec`, `NoTokenUnchanged`, `ReplaceByTokenIsIdentity` and `ReplaceOne` |
| `Text.Explode` | md.php:136 | the reference split of a text at the leftmost non-overlapping occurrences of the token: at least one piece, and no piece contains the token |
| `Text.ImplodeExplode` | md.php:136 | joining the pieces with the token gives back the text |
| `Text.ReplaceAllCopiesPrefix` | md.php:136 | `str_replace` copies every character before the first occurrence unchanged |
| `Text.ReplaceAllIsImplodeExplode` | md.php:136 | `str_replace` equals splitting at the leftmost non-overlapping occurrences and joining with the replacement; the left-to-right scan does not rescan what it inserted |
| `Text.ReplaceAllSpec` | md.php:136 | the result is the token-free pieces joined by the replacement, and the same pieces joined by the token give back the head |
| `Text.NoTokenUnchanged` | md.php:136 | a head without `{{title}}` is returned unchanged |
| `Text.ReplaceByTokenIsIdentity` | md.php:136 | replacing the token by itself changes nothing |
| `Text.ReplaceOne` | md.php:136 | a single occurrence is replaced in place, with the text around it kept |
| `Text.TitleInHead` | md.php:136 | `<head><title>{{title}}</title></head>` with title `Demo` becomes `<head><title>Demo</title></head>` |
| `Text.Extension` | md.php:124 | `getExtension`: holds no dot, is `""` for a name without a dot, and otherwise is the end of the name right after a dot |
| `Text.StripSuffix` | md.php:125 | `getBasename($suffix)`: either the name unchanged, or a shorter name that gives back the name when the suffix is appended |
| `Text.DefaultTargetName` | md.php:122-128 | `"{$basename}.html"`: ends in `.html`, and what precedes that is a prefix of the source name |
| `Text.LastIndexOf` | md.php:124 | the extension starts after the last dot: the result is a dot's index with no dot after it, and `None` exactly when there is no dot |
| `Text.ExtensionAfterLastDot` | md.php:124 | the extension of `stem.ext` is `ext` when `ext` has no dot, whatever dots the stem holds |
| `Text.DefaultNameReplacesExtension` | md.php:122-128 | `stem.ext`, with a non-empty stem and no dot in `ext`, becomes `stem.html` |
| `Text.DefaultNameWithoutDot` | md.php:122-128 | a name without a dot just gains `.html` |
| `Text.DefaultNameOfDotFile` | md.php:122-128 | `.ext` keeps its whole name and gains `.html`, because `getBasename` strips a suffix only when the name is longer than it; Finder skips dot files by default, so the command itself never derives a name from such a file |
| `Text.NotesToHtml` | md.php:122-128 | `notes.md` becomes `notes.html` |
| `Command.FileSystem.Exists` | md.php:45-56 | `Filesystem::exists` on the object's current files and directories (also md.php:130); no contract of its own, `Prepare` ties its uses to `Assemble` |
| `Command.FileSystem.FileGetContents` | md.php:66-72 | `file_get_contents` on the object's current files; no contract of its own, `Prepare` ties the fragments it reads to `Assemble` |
| `Command.FileSystem.Touch` | md.php:134 | `touch` creates an empty file, keeps an existing one, and changes no other path |
| `Command.FileSystem.AppendToFile` | md.php:138 | `appendToFile` adds the text at the end, creating the file if needed, and changes no other path |
| `Command.FileSystem.WriteTarget` | md.php:134-144 | after `touch` and the three appends, only the target changes; it holds its old contents (none) followed by the substituted head, the converted body and the tail |
| `Command.FileSystem.Prepare` | md.php:37-132 | before any write, fails with exactly the error of `Assemble`; otherwise yields the `Assemble` target, which does not exist, and the `Assemble` page contents |
| `Command.FileSystem.Execute` | md.php:36-145 | on failure returns the `Assemble` error and leaves every path unchanged; on success returns the target path, and the map changes at that one path only, to the `Assemble` page |
| `Command.ExecuteTwice` | md.php:77-134 | running twice with the same arguments, where the second Finder search still yields the source and `realpath` resolves the directory option as before: the second run fails, with `TargetExists` on the first run's target when the source is alone and with `SourceAmbiguous` when another file is found too, and the first run's file keeps its contents |
| `Command.Assemble` | md.php:36-145 | the outcome of one run, the first failing check or the created file and its contents; its properties are stated by `ChecksInOrder`, `SuccessWritesPage` and the lemmas below |
| `Command.Given` | md.php:45-53 | PHP truthiness of an option (also md.php:116 and 122): not given, `""` and `"0"` are all false; a predicate without a contract of its own |
| `Command.PathExists` | md.php:45-56 | `Filesystem::exists` (also md.php:130): a file or a directory is at the path; no contract of its own, stated by `ChecksInOrder` and `SuccessWritesPage` |
| `Command.HeadFound` | md.php:45-47 | the head option is not given or names an existing path; no contract of its own, stated by `ChecksInOrder` |
| `Command.TailFound` | md.php:49-51 | the tail option is not given or names an existing path; no contract of its own, stated by `ChecksInOrder` |
| `Command.DirectoryFound` | md.php:53-58 | the resolved target directory is falsy or exists; no contract of its own, stated by `ChecksInOrder` and `DirectoryCheckNeverFires` |
| `Command.ReadFile` | md.php:66-72 | `file_get_contents`: a file's contents, `""` for anything else; no contract of its own |
| `Command.Fragment` | md.php:63-73 | `$htmlHead`/`$htmlTail`: `""` unless the option is given, else the file read; no contract of its own |
| `Command.ResolvedDirectory` | md.php:53-54 | `$targetDirectory` after `realpath`: kept when not given, resolved when `realpath` succeeds, `false` (None) otherwise; its effect is stated by `UnresolvableDirectoryIgnored` |
| `Command.TargetPath` | md.php:116-130 | the target path with the defaults of md.php:116-128 filled in; its default case is stated by `DefaultTarget` |
| `Command.Page` | md.php:134-144 | what the created file holds: substituted head, converted body, tail; stated by `SuccessWritesPage`, `TailIsNotSubstituted` and `HeadWithoutPlaceholderCopied` |
| `Command.Plan.Content` | md.php:134-144 | the same page built from the values `Prepare` gathered; `Prepare` proves it equal to the page of `Assemble` |
| `Command.ChecksInOrder` | md.php:45-132 | the checks fire in this order: head, tail, target directory, no source, more than one source, target exists; the first failing check decides the error |
| `Command.SuccessWritesPage` | md.php:81-144 | a run succeeds exactly when every check holds; it then uses the one file Finder yields, creates a path that did not exist, and writes substituted head ++ converted body ++ tail |
| `Command.TailIsNotSubstituted` | md.php:144 | the page ends with the tail fragment exactly as read |
| `Command.HeadWithoutPlaceholderCopied` | md.php:136-138 | a head without `{{title}}` starts the page verbatim |
| `Command.NoHeadingRemovesPlaceholders` | md.php:101-138 | when the source has no `"# "`, every `{{title}}` is removed from the head |
| `Command.DefaultTarget` | md.php:116-128 | with no usable output name or directory, the target is `<source dir>/<stem>.html` |
| `Command.UnresolvableDirectoryIgnored` | md.php:53-118 | a directory option that `realpath` cannot resolve gives the same outcome as no directory option |
| `Command.DirectoryCheckNeverFires` | md.php:53-58 | if `realpath` only yields existing paths, the run never fails with `TargetDirectoryMissing` |
| `Command.SecondRunFails` | md.php:77-132 | on the file system a successful run leaves, a run whose Finder search still yields the source and whose directory option resolves as before fails: `TargetExists` on the created path when the source is alone, `SourceAmbiguous` otherwise |

## Left out

- Markdown-to-HTML conversion (`GithubFlavoredMarkdownConverter`, md.php:87-90, 141) is an external library. It is an arbitrary function parameter, and no property of its output is claimed.
- Symfony Console wiring and argument parsing (md.php:27-36, 146). The option values are the fields of `Invocation`.
- `realpath`, and Finder's recursive search with glob/regex name matching (md.php:54, 76-77, 117), are inputs. The same goes for the real path of the source file's directory.
- The source text is read once, from `Found`. The code reads the file twice (md.php:102 and 140); a file changing between the two reads is not modelled.
- The files Finder yields (`Found`) are not tied to the `files` map: a found file need not be in it. The program always finds the source on disk, so, for example, an output path naming the source itself fails with "already exists" there, while the model can let such a run succeed when the map lacks the source. No lemma depends on the two agreeing.
- Paths are plain strings. Two different strings naming the same file (symbolic links, `a//b`, relative segments) are not identified.
- A head or tail path that exists only as a directory is read as empty text. PHP's failed read of a directory is not modelled.
- I/O failures are not modelled: `touch`, `appendToFile` or `file_get_contents` throwing part-way. The model's writes always succeed, so the partial file such a failure could leave is not represented.
- Text is a sequence of characters. `UnicodeString` rejecting invalid UTF-8, its normalisation of the text to NFC before matching (md.php:102), and the PCRE `u` mode, are not modelled: for a source that is not in NFC the title the command finds is the normalised one, not the raw slice the model takes.
- Exception messages are reduced to `Error` variants carrying the path the message names.
- `Finder::in` throws `DirectoryNotFoundException` when the locator's directory does not exist (md.php:77). The model folds this failure into `SourceMissing`: it happens at the same point of the checks, before any write.
- Finder runs afresh on every run. `ExecuteTwice` and `SecondRunFails` take the second search as an input; they assume it still yields the source and that `realpath` resolves the directory option as before.
- The process exit status is not modelled.
- webpack.config.js is front-end build configuration with no logic of the command; it is not part of this model.
