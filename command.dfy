/**
 * The single command of `md`: check the options, find the one Markdown file,
 * take its title, work out where the HTML goes, then create that file and
 * append the head fragment (with `{{title}}` filled in), the converted body and
 * the tail fragment.
 *
 * The parts that are not the command's own code come in as values: the
 * command-line options (`Invocation`), what `realpath` resolves, the files
 * Finder yields and the Markdown converter (`Environment`). The file system is
 * an object whose map of files the command changes.
 */
module Command {
  import opened Wrappers
  import opened Text

  /** The `markdown` argument and the four options; `None` is an option not given. */
  datatype Invocation = Invocation(
    markdown: string,
    head: Option<string>,
    tail: Option<string>,
    output: Option<string>,
    directory: Option<string>)

  /** A file Finder yields: the real path of its directory, its base name and its contents. */
  datatype Found = Found(dir: string, name: string, text: string)

  /** What the command obtains from code outside this model. */
  datatype Environment = Environment(
    realpath: map<string, string>,  // `realpath`: the paths it resolves; it returns false on every other path
    found: seq<Found>,              // the files Finder yields for the `markdown` locator, in order
    convert: string -> string)      // `GithubFlavoredMarkdownConverter::convertToHtml`

  /**
   * The exceptions the command throws, each with the path it names. A locator
   * whose directory does not exist makes Finder throw before it searches; that
   * failure is reported as `SourceMissing`, at the same point of the checks.
   */
  datatype Error =
    | HeadMissing(path: string)
    | TailMissing(path: string)
    | TargetDirectoryMissing(path: string)
    | SourceMissing(path: string)
    | SourceAmbiguous(path: string)
    | TargetExists(path: string)

  /**
   * What the command has gathered once every check has passed: the target
   * path, the head and tail fragments as read, the title and the Markdown text.
   */
  datatype Plan = Plan(path: string, htmlHead: string, title: string, markdown: string, htmlTail: string)
  {
    /** What the writes of md.php:134-144 put into the new file. */
    function Content(convert: string -> string): string
    {
      ReplaceAll(htmlHead, TitleToken, title) + convert(markdown) + htmlTail
    }
  }

  /** The file the command creates and what it holds once the command is done. */
  datatype Output = Output(path: string, content: string)

  /** PHP truthiness of an option value: `null`, `""` and `"0"` all count as not given. */
  predicate Given(v: Option<string>)
  {
    v.Some? && v.value != "" && v.value != "0"
  }

  /** `Filesystem::exists`: a file or a directory is at `path`. */
  predicate PathExists(files: map<string, string>, dirs: set<string>, path: string)
  {
    path in files || path in dirs
  }

  /** `file_get_contents`: the contents of a file, "" for anything else. */
  function ReadFile(files: map<string, string>, path: string): string
  {
    if path in files then files[path] else ""
  }

  /** `$htmlHead` / `$htmlTail` as read at md.php:63-73: "" when the option is not given. */
  function Fragment(files: map<string, string>, option: Option<string>): string
  {
    if Given(option) then ReadFile(files, option.value) else ""
  }

  /**
   * `$targetDirectory` after md.php:53-54: the option as `realpath` resolves it;
   * `None` (PHP's `false`) when it cannot, and the option itself when not given.
   */
  function ResolvedDirectory(inv: Invocation, realpath: map<string, string>): Option<string>
  {
    if !Given(inv.directory) then inv.directory
    else if inv.directory.value in realpath then Some(realpath[inv.directory.value])
    else None
  }

  /** `"{$targetDirectory}/{$targetFile}"` once the defaults of md.php:116-128 are in. */
  function TargetPath(inv: Invocation, realpath: map<string, string>, source: Found): string
  {
    var dir := ResolvedDirectory(inv, realpath);
    var directory := if Given(dir) then dir.value else source.dir;
    var file := if Given(inv.output) then inv.output.value else DefaultTargetName(source.name);
    directory + "/" + file
  }

  /** What the created file holds: substituted head, converted body, tail as it is. */
  function Page(files: map<string, string>, inv: Invocation, env: Environment, source: Found): string
  {
    ReplaceAll(Fragment(files, inv.head), TitleToken, ExtractTitle(source.text))
      + env.convert(source.text) + Fragment(files, inv.tail)
  }

  /** The head option is absent or names an existing path (md.php:45). */
  predicate HeadFound(files: map<string, string>, dirs: set<string>, inv: Invocation)
  {
    !Given(inv.head) || PathExists(files, dirs, inv.head.value)
  }

  /** The tail option is absent or names an existing path (md.php:49). */
  predicate TailFound(files: map<string, string>, dirs: set<string>, inv: Invocation)
  {
    !Given(inv.tail) || PathExists(files, dirs, inv.tail.value)
  }

  /** The resolved target directory is absent or exists (md.php:53-58). */
  predicate DirectoryFound(files: map<string, string>, dirs: set<string>, inv: Invocation, env: Environment)
  {
    var dir := ResolvedDirectory(inv, env.realpath);
    !Given(dir) || PathExists(files, dirs, dir.value)
  }

  /**
   * The outcome of one run of the command on a file system holding `files`
   * and `dirs`: the first failing check, or the file it creates.
   */
  function Assemble(files: map<string, string>, dirs: set<string>, inv: Invocation, env: Environment)
    : Result<Output, Error>
  {
    if !HeadFound(files, dirs, inv) then Err(HeadMissing(inv.head.value))
    else if !TailFound(files, dirs, inv) then Err(TailMissing(inv.tail.value))
    else if !DirectoryFound(files, dirs, inv, env) then
      Err(TargetDirectoryMissing(ResolvedDirectory(inv, env.realpath).value))
    else if |env.found| == 0 then Err(SourceMissing(inv.markdown))
    else if |env.found| > 1 then Err(SourceAmbiguous(inv.markdown))
    else
      var path := TargetPath(inv, env.realpath, env.found[0]);
      if PathExists(files, dirs, path) then Err(TargetExists(path))
      else Ok(Output(path, Page(files, inv, env, env.found[0])))
  }

  /** A second write to a key overrides the first. */
  lemma UpdateTwice(m: map<string, string>, key: string, first: string, second: string)
    ensures m[key := first][key := second] == m[key := second]
  {
  }

  /** The file system the command works on. */
  class FileSystem {
    /** Regular files by path, with their contents. */
    var files: map<string, string>
    /** Existing directories; the command never creates or removes one. */
    var dirs: set<string>

    constructor (files: map<string, string>, dirs: set<string>)
      ensures this.files == files && this.dirs == dirs
    {
      this.files := files;
      this.dirs := dirs;
    }

    /** `Filesystem::exists`. */
    predicate Exists(path: string)
      reads this
    {
      PathExists(files, dirs, path)
    }

    /** `file_get_contents`. */
    function FileGetContents(path: string): string
      reads this
    {
      ReadFile(files, path)
    }

    /** `Filesystem::touch`: creates an empty file, leaves an existing one as it is. */
    method Touch(path: string)
      modifies this`files
      ensures files == old(files)[path := ReadFile(old(files), path)]
    {
      files := files[path := ReadFile(files, path)];
    }

    /** `Filesystem::appendToFile`: adds `text` at the end, creating the file if needed. */
    method AppendToFile(path: string, text: string)
      modifies this`files
      ensures files == old(files)[path := ReadFile(old(files), path) + text]
    {
      files := files[path := ReadFile(files, path) + text];
    }

    /**
     * The writes of md.php:134-144: `touch` the target, then append the head
     * with the placeholder replaced by `title`, the converted Markdown and the
     * tail. Only `path` changes.
     */
    method WriteTarget(plan: Plan, convert: string -> string)
      modifies this`files
      ensures files == old(files)[plan.path := ReadFile(old(files), plan.path)
        + ReplaceAll(plan.htmlHead, TitleToken, plan.title) + convert(plan.markdown) + plan.htmlTail]
    {
      var path := plan.path;
      ghost var before := files;
      ghost var written := ReadFile(files, path);
      Touch(path);
      assert files == before[path := written];

      var htmlHead := ReplaceAll(plan.htmlHead, TitleToken, plan.title);
      assert ReadFile(files, path) == written;
      AppendToFile(path, htmlHead);
      UpdateTwice(before, path, written, written + htmlHead);
      written := written + htmlHead;

      var html := convert(plan.markdown);
      assert ReadFile(files, path) == written;
      AppendToFile(path, html);
      UpdateTwice(before, path, written, written + html);
      written := written + html;

      assert ReadFile(files, path) == written;
      AppendToFile(path, plan.htmlTail);
      UpdateTwice(before, path, written, written + plan.htmlTail);
    }

    /**
     * The checks and reads of md.php:37-132: everything the command does
     * before its first write. It fails exactly as the whole command does, and
     * otherwise yields the target path and what goes into it.
     */
    method Prepare(inv: Invocation, env: Environment) returns (r: Result<Plan, Error>)
      ensures Assemble(files, dirs, inv, env).Err? ==> r == Err(Assemble(files, dirs, inv, env).error)
      ensures Assemble(files, dirs, inv, env).Ok? ==>
        && r.Ok?
        && r.value.path == Assemble(files, dirs, inv, env).value.path
        && !Exists(r.value.path)
        && r.value.Content(env.convert) == Assemble(files, dirs, inv, env).value.content
    {
      var headFile, tailFile := inv.head, inv.tail;
      var targetFile, targetDirectory := inv.output, inv.directory;

      if Given(headFile) && !Exists(headFile.value) {
        return Err(HeadMissing(headFile.value));
      }
      if Given(tailFile) && !Exists(tailFile.value) {
        return Err(TailMissing(tailFile.value));
      }
      if Given(targetDirectory) {
        targetDirectory := if targetDirectory.value in env.realpath
          then Some(env.realpath[targetDirectory.value]) else None;
        if Given(targetDirectory) && !Exists(targetDirectory.value) {
          return Err(TargetDirectoryMissing(targetDirectory.value));
        }
      }

      var htmlHead := "";
      if Given(headFile) {
        htmlHead := FileGetContents(headFile.value);
      }
      var htmlTail := "";
      if Given(tailFile) {
        htmlTail := FileGetContents(tailFile.value);
      }

      if |env.found| == 0 {
        return Err(SourceMissing(inv.markdown));
      } else if |env.found| > 1 {
        return Err(SourceAmbiguous(inv.markdown));
      }
      var file := env.found[0];

      var title := "";
      var matches := MatchHeading(file.text);
      if matches.Some? {
        title := matches.value;
      }

      if !Given(targetDirectory) {
        targetDirectory := Some(file.dir);
      }
      if !Given(targetFile) {
        targetFile := Some(DefaultTargetName(file.name));
      }
      var path := targetDirectory.value + "/" + targetFile.value;
      assert path == TargetPath(inv, env.realpath, file);
      if Exists(path) {
        return Err(TargetExists(path));
      }
      return Ok(Plan(path, htmlHead, title, file.text, htmlTail));
    }

    /**
     * The command (md.php:36-145). On a failure nothing changes; on success
     * exactly one path changes: the new target file, which gets the page.
     */
    method Execute(inv: Invocation, env: Environment) returns (r: Result<string, Error>)
      modifies this`files
      ensures Assemble(old(files), dirs, inv, env).Err? ==>
        r == Err(Assemble(old(files), dirs, inv, env).error) && files == old(files)
      ensures Assemble(old(files), dirs, inv, env).Ok? ==>
        var out := Assemble(old(files), dirs, inv, env).value;
        r == Ok(out.path) && files == old(files)[out.path := out.content]
    {
      var plan := Prepare(inv, env);
      if plan.Err? {
        return Err(plan.error);
      }
      ghost var head := ReplaceAll(plan.value.htmlHead, TitleToken, plan.value.title);
      assert ReadFile(files, plan.value.path) + head == head;
      WriteTarget(plan.value, env.convert);
      return Ok(plan.value.path);
    }
  }

  /**
   * Running the command twice with the same arguments. Finder searches again
   * on the second run (`env2`); it still yields the source, and `realpath`
   * resolves the directory option as before. The second run fails and leaves
   * the first run's file alone: on the target it created, or, when the new
   * search also finds another file (such as the one just created), because
   * the source is no longer unique.
   */
  method ExecuteTwice(fs: FileSystem, inv: Invocation, env: Environment, env2: Environment)
    returns (first: Result<string, Error>, second: Result<string, Error>)
    requires |env.found| == 1 ==> env.found[0] in env2.found
    requires ResolvedDirectory(inv, env2.realpath) == ResolvedDirectory(inv, env.realpath)
    modifies fs`files
    ensures first.Ok? ==> second.Err?
    ensures first.Ok? && |env2.found| == 1 ==> second == Err(TargetExists(first.value))
    ensures first.Ok? && |env2.found| > 1 ==> second == Err(SourceAmbiguous(inv.markdown))
    ensures first.Ok? ==>
      && Assemble(old(fs.files), fs.dirs, inv, env).Ok?
      && fs.files == old(fs.files)[first.value := Assemble(old(fs.files), fs.dirs, inv, env).value.content]
  {
    first := fs.Execute(inv, env);
    if first.Ok? {
      SecondRunFails(old(fs.files), fs.dirs, inv, env, env2);
    }
    second := fs.Execute(inv, env2);
  }

  // ---------------------------------------------------------------------------
  // Properties of one run
  // ---------------------------------------------------------------------------

  /**
   * The checks fire in the order head, tail, target directory, source found,
   * source unique, target free; the run fails with the first that does not hold.
   */
  lemma ChecksInOrder(files: map<string, string>, dirs: set<string>, inv: Invocation, env: Environment)
    ensures var r := Assemble(files, dirs, inv, env);
      && (!HeadFound(files, dirs, inv) ==> r == Err(HeadMissing(inv.head.value)))
      && (HeadFound(files, dirs, inv) && !TailFound(files, dirs, inv) ==> r == Err(TailMissing(inv.tail.value)))
      && (HeadFound(files, dirs, inv) && TailFound(files, dirs, inv) ==>
            (r.Err? && r.error.TargetDirectoryMissing? <==> !DirectoryFound(files, dirs, inv, env)))
      && (HeadFound(files, dirs, inv) && TailFound(files, dirs, inv) && DirectoryFound(files, dirs, inv, env) ==>
            && (|env.found| == 0 ==> r == Err(SourceMissing(inv.markdown)))
            && (|env.found| > 1 ==> r == Err(SourceAmbiguous(inv.markdown)))
            && (|env.found| == 1 ==>
                  (r == Err(TargetExists(TargetPath(inv, env.realpath, env.found[0])))
                   <==> PathExists(files, dirs, TargetPath(inv, env.realpath, env.found[0])))))
  {
  }

  /**
   * A run succeeds exactly when every check holds; it then creates a path that
   * did not exist, from the one file Finder yields, holding the substituted
   * head, the converted body and the tail in that order.
   */
  lemma SuccessWritesPage(files: map<string, string>, dirs: set<string>, inv: Invocation, env: Environment)
    ensures var r := Assemble(files, dirs, inv, env);
      r.Ok? <==>
        && HeadFound(files, dirs, inv) && TailFound(files, dirs, inv)
        && DirectoryFound(files, dirs, inv, env)
        && |env.found| == 1
        && !PathExists(files, dirs, TargetPath(inv, env.realpath, env.found[0]))
    ensures var r := Assemble(files, dirs, inv, env);
      r.Ok? ==>
        var source := env.found[0];
        var head := ReplaceAll(Fragment(files, inv.head), TitleToken, ExtractTitle(source.text));
        && r.value.path == TargetPath(inv, env.realpath, source)
        && !PathExists(files, dirs, r.value.path)
        && r.value.content == head + env.convert(source.text) + Fragment(files, inv.tail)
        && r.value.content[..|head|] == head
        && r.value.content[|r.value.content| - |Fragment(files, inv.tail)|..] == Fragment(files, inv.tail)
  {
  }

  /** The tail fragment is written as it is, even when it holds the placeholder. */
  lemma TailIsNotSubstituted(files: map<string, string>, dirs: set<string>, inv: Invocation, env: Environment)
    requires Assemble(files, dirs, inv, env).Ok?
    ensures var content := Assemble(files, dirs, inv, env).value.content;
      var tail := Fragment(files, inv.tail);
      |tail| <= |content| && content[|content| - |tail|..] == tail
  {
  }

  /** A head without the placeholder is copied as it is; the page starts with it. */
  lemma HeadWithoutPlaceholderCopied(files: map<string, string>, dirs: set<string>, inv: Invocation, env: Environment)
    requires Assemble(files, dirs, inv, env).Ok?
    requires forall j :: !Occurs(Fragment(files, inv.head), TitleToken, j)
    ensures var head := Fragment(files, inv.head);
      var content := Assemble(files, dirs, inv, env).value.content;
      |head| <= |content| && content[..|head|] == head
  {
    NoTokenUnchanged(Fragment(files, inv.head), TitleToken, ExtractTitle(env.found[0].text));
  }

  /**
   * Without a heading in the source, the title is empty and every placeholder
   * is removed from the head: the page starts with the head's pieces between
   * placeholders, joined with nothing.
   */
  lemma NoHeadingRemovesPlaceholders(files: map<string, string>, dirs: set<string>, inv: Invocation, env: Environment)
    requires Assemble(files, dirs, inv, env).Ok?
    requires forall j :: !Occurs(env.found[0].text, Marker, j)
    ensures var head := Implode(Explode(Fragment(files, inv.head), TitleToken), "");
      var content := Assemble(files, dirs, inv, env).value.content;
      |head| <= |content| && content[..|head|] == head
  {
    var source := env.found[0];
    var head := Fragment(files, inv.head);
    AssembledPage(files, dirs, inv, env);
    assert ExtractTitle(source.text) == "";
    assert ReplaceAll(head, TitleToken, "") == Implode(Explode(head, TitleToken), "") by {
      ReplaceAllIsImplodeExplode(head, TitleToken, "");
    }
  }

  /** A successful run writes the page of its one source. */
  lemma AssembledPage(files: map<string, string>, dirs: set<string>, inv: Invocation, env: Environment)
    requires Assemble(files, dirs, inv, env).Ok?
    ensures |env.found| == 1
    ensures var source := env.found[0];
      Assemble(files, dirs, inv, env).value.content
        == ReplaceAll(Fragment(files, inv.head), TitleToken, ExtractTitle(source.text))
          + (env.convert(source.text) + Fragment(files, inv.tail))
  {
  }

  /**
   * With neither an output name nor a usable directory, the target is the
   * source's base name with ".html" for its extension, in the source's directory.
   */
  lemma DefaultTarget(files: map<string, string>, dirs: set<string>, inv: Invocation, env: Environment,
                      stem: string, ext: string)
    requires !Given(inv.output) && !Given(ResolvedDirectory(inv, env.realpath))
    requires |env.found| == 1 && env.found[0].name == stem + "." + ext
    requires stem != [] && '.' !in ext
    ensures TargetPath(inv, env.realpath, env.found[0]) == env.found[0].dir + "/" + stem + ".html"
    ensures Assemble(files, dirs, inv, env).Ok? ==>
      Assemble(files, dirs, inv, env).value.path == env.found[0].dir + "/" + stem + ".html"
  {
    DefaultPath(inv, env.realpath, env.found[0], stem, ext);
    if Assemble(files, dirs, inv, env).Ok? {
      AssembledPath(files, dirs, inv, env);
    }
  }

  /** The target path built from the defaults, for a source named `stem.ext`. */
  lemma DefaultPath(inv: Invocation, realpath: map<string, string>, source: Found, stem: string, ext: string)
    requires !Given(inv.output) && !Given(ResolvedDirectory(inv, realpath))
    requires source.name == stem + "." + ext && stem != [] && '.' !in ext
    ensures TargetPath(inv, realpath, source) == source.dir + "/" + stem + ".html"
  {
    var file := stem + ".html";
    assert DefaultTargetName(source.name) == file by {
      DefaultNameReplacesExtension(stem, ext);
    }
    assert TargetPath(inv, realpath, source) == source.dir + "/" + file;
    assert source.dir + "/" + file == source.dir + "/" + stem + ".html";
  }

  /** A successful run creates the target path of its one source. */
  lemma AssembledPath(files: map<string, string>, dirs: set<string>, inv: Invocation, env: Environment)
    requires Assemble(files, dirs, inv, env).Ok?
    ensures |env.found| == 1 && Assemble(files, dirs, inv, env).value.path == TargetPath(inv, env.realpath, env.found[0])
  {
  }

  /** A directory option that `realpath` cannot resolve is dropped, as if never given. */
  lemma UnresolvableDirectoryIgnored(files: map<string, string>, dirs: set<string>, inv: Invocation, env: Environment)
    requires Given(inv.directory) && inv.directory.value !in env.realpath
    ensures Assemble(files, dirs, inv, env) == Assemble(files, dirs, inv.(directory := None), env)
  {
  }

  /**
   * Since `realpath` only yields paths that exist, the target-directory check of
   * md.php:56 never fires.
   */
  lemma DirectoryCheckNeverFires(files: map<string, string>, dirs: set<string>, inv: Invocation, env: Environment)
    requires forall p :: p in env.realpath ==> PathExists(files, dirs, env.realpath[p])
    ensures !(Assemble(files, dirs, inv, env).Err? && Assemble(files, dirs, inv, env).error.TargetDirectoryMissing?)
  {
  }

  /**
   * A second run on the file system the first run left fails. Its Finder
   * search (`env2`) still yields the source and `realpath` resolves the
   * directory option as before. With the source alone, the run fails on the
   * target the first run created; with any other file found beside it, it
   * fails because the source is not unique.
   */
  lemma SecondRunFails(files: map<string, string>, dirs: set<string>, inv: Invocation, env: Environment,
                       env2: Environment)
    requires Assemble(files, dirs, inv, env).Ok?
    requires |env.found| == 1 ==> env.found[0] in env2.found
    requires ResolvedDirectory(inv, env2.realpath) == ResolvedDirectory(inv, env.realpath)
    ensures var out := Assemble(files, dirs, inv, env).value;
      var second := Assemble(files[out.path := out.content], dirs, inv, env2);
      && second.Err?
      && (|env2.found| == 1 ==> second == Err(TargetExists(out.path)))
      && (|env2.found| > 1 ==> second == Err(SourceAmbiguous(inv.markdown)))
  {
    var source := env.found[0];
    if |env2.found| == 1 {
      assert env2.found[0] == source;
    }
  }
}
