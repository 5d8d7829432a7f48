/** The routing rules of codereview/cli.py: the command-line overrides of
    the configuration, the choice of where the code under review comes
    from, and the text handed to the reviewer. What the process reads
    (standard input, git, files) is given as a `Host`; an error the tool
    prints before exiting with status 1 is a `Failure` carrying a
    `Refusal`, whose `Message` is the printed text. */
module Cli {
  import opened Wrappers
  import opened Text
  import opened Json
  import Config

  /** The parsed arguments that matter here. */
  datatype Args = Args(
    files: seq<string>,
    staged: bool,
    diff: Option<string>,
    last: Option<int>,
    stdin: bool,
    model: Option<string>,
    provider: Option<string>)

  /** What `get_file_content` yields or raises. */
  datatype FileRead = Read(content: string) | NotFound | PermissionDenied | OtherIoError(reason: string)

  /** What the process would read: whether standard input is a terminal and
      what it holds, whether the working directory is inside a git work
      tree, the output of the three diff commands, and the files. */
  datatype Host = Host(
    stdinIsTty: bool,
    stdinText: string,
    inGitRepo: bool,
    stagedDiff: string,
    diffAgainst: string -> string,
    diffLast: int -> string,
    readFile: string -> FileRead)

  /** The code, the name shown for it, and whether it is a diff. */
  datatype Source = Source(code: string, filename: string, isDiff: bool)

  /** A string option argument is given and non-empty. */
  predicate Given(o: Option<string>) {
    o.Some? && o.value != ""
  }

  /** `args.last` is truthy: given and not zero. */
  predicate LastGiven(o: Option<int>) {
    o.Some? && o.value != 0
  }

  // ─── configuration overrides ───

  /** The configuration `apply_overrides` returns. `base_url` is looked up
      before the provider's default is consulted, so a configuration
      without it raises `KeyError` even for a known provider. */
  function Overridden(config: map<string, Json>, model: Option<string>, provider: Option<string>)
    : Result<map<string, Json>, Raised>
  {
    var c := if Given(model) then config["model" := JString(model.value)] else config;
    if !Given(provider) then Success(c)
    else if "base_url" !in c then Failure(KeyError("'base_url'"))
    else
      var p := provider.value;
      var base := if p in Config.Providers then JString(Config.Providers[p].baseUrl) else c["base_url"];
      Success(c["provider" := JString(p)]["base_url" := base])
  }

  /** `apply_overrides`, updating the configuration step by step. */
  method ApplyOverrides(config: map<string, Json>, model: Option<string>, provider: Option<string>)
    returns (r: Result<map<string, Json>, Raised>)
    ensures r == Overridden(config, model, provider)
  {
    var c := config;
    if Given(model) {
      c := c["model" := JString(model.value)];
    }
    if Given(provider) {
      var p := provider.value;
      c := c["provider" := JString(p)];
      if "base_url" !in c {
        return Failure(KeyError("'base_url'"));
      }
      var fallback := c["base_url"];
      c := c["base_url" := if p in Config.Providers then JString(Config.Providers[p].baseUrl) else fallback];
    }
    r := Success(c);
  }

  /** Without `--model` and `--provider` the configuration is unchanged. */
  lemma NoOverridesUnchanged(config: map<string, Json>, model: Option<string>, provider: Option<string>)
    requires !Given(model) && !Given(provider)
    ensures Overridden(config, model, provider) == Success(config)
  {
  }

  /** `--model` sets `model`; `--provider` sets `provider` and, for a known
      provider, its default `base_url`; every other entry, `model`
      included when only `--provider` is given, is kept. */
  lemma OverridesEffect(config: map<string, Json>, model: Option<string>, provider: Option<string>)
    ensures Overridden(config, model, provider).Failure? <==> Given(provider) && "base_url" !in config
    ensures Overridden(config, model, provider).Success? ==>
              var r := Overridden(config, model, provider).value;
              && (forall k :: k in r <==> (k in config || (k == "model" && Given(model))
                                           || (k == "provider" && Given(provider))))
              && (forall k :: k in config && k != "model" && k != "provider" && k != "base_url" ==> r[k] == config[k])
              && ("model" in r ==> r["model"] == if Given(model) then JString(model.value) else config["model"])
              && ("provider" in r ==> r["provider"] == if Given(provider) then JString(provider.value) else config["provider"])
              && ("base_url" in r ==>
                    r["base_url"] == if Given(provider) && provider.value in Config.Providers
                                     then JString(Config.Providers[provider.value].baseUrl)
                                     else config["base_url"])
  {
  }

  /** Applying the same overrides again changes nothing. */
  lemma OverridesIdempotent(config: map<string, Json>, model: Option<string>, provider: Option<string>)
    requires Overridden(config, model, provider).Success?
    ensures Overridden(Overridden(config, model, provider).value, model, provider)
            == Overridden(config, model, provider)
  {
    var r := Overridden(config, model, provider).value;
    var c := if Given(model) then r["model" := JString(model.value)] else r;
    assert c == r;
    if Given(provider) {
      var p := provider.value;
      var base := if p in Config.Providers then JString(Config.Providers[p].baseUrl) else c["base_url"];
      assert base == r["base_url"];
      assert c["provider" := JString(p)]["base_url" := base] == r;
    }
  }

  // ─── code sources ───

  /** Why no code could be resolved. */
  datatype Refusal =
    | NoStdinInput
    | NotRepository
    | NoStagedChanges
    | NoDiff(ref: string)
    | NonPositiveLast
    | NoRecentChanges(n: int)
    | FileIsEmpty(path: string)
    | FileNotFound(path: string)
    | FileAccessDenied(path: string)
    | FileUnreadable(path: string, reason: string)

  /** The message printed for a refusal. */
  function Message(e: Refusal): string {
    match e
    case NoStdinInput => "No input received from stdin"
    case NotRepository => "Not a git repository. Run this from inside a git project."
    case NoStagedChanges => "No staged changes found. Stage files first: git add <files>"
    case NoDiff(ref) => "No diff found between " + ref + " and HEAD"
    case NonPositiveLast => "--last requires a positive integer"
    case NoRecentChanges(n) => "No changes found in the last " + IntToString(n) + " commits"
    case FileIsEmpty(path) => "File is empty: " + path
    case FileNotFound(path) => "File not found: " + path
    case FileAccessDenied(path) => "Permission denied: " + path
    case FileUnreadable(path, reason) => "Cannot read " + path + ": " + reason
  }

  /** `resolve_from_stdin`. Python's `not code.strip()` is written
      `AllSpace(code)` here and below: the two agree by
      `Text.StripEmptyIffAllSpace`. */
  function FromStdin(host: Host): Result<Source, Refusal> {
    var code := host.stdinText;
    if AllSpace(code) then Failure(NoStdinInput)
    else Success(Source(code, "stdin", false))
  }

  /** `resolve_from_staged` */
  function FromStaged(host: Host): Result<Source, Refusal> {
    if !host.inGitRepo then Failure(NotRepository)
    else
      var code := host.stagedDiff;
      if AllSpace(code) then Failure(NoStagedChanges)
      else Success(Source(code, "staged changes", true))
  }

  /** `resolve_from_diff` */
  function FromDiff(host: Host, ref: string): Result<Source, Refusal> {
    if !host.inGitRepo then Failure(NotRepository)
    else
      var code := host.diffAgainst(ref);
      if AllSpace(code) then Failure(NoDiff(ref))
      else Success(Source(code, "diff " + ref + "..HEAD", true))
  }

  /** `resolve_from_last_n`: the repository is checked before the count. */
  function FromLast(host: Host, n: int): Result<Source, Refusal> {
    if !host.inGitRepo then Failure(NotRepository)
    else if n < 1 then Failure(NonPositiveLast)
    else
      var code := host.diffLast(n);
      if AllSpace(code) then Failure(NoRecentChanges(n))
      else Success(Source(code, "last " + IntToString(n) + " commits", true))
  }

  /** The piece one file contributes to the combined text, or the message
      printed for it. */
  function FileEntry(path: string, read: FileRead): Result<string, Refusal> {
    match read
    case Read(content) =>
      if AllSpace(content) then Failure(FileIsEmpty(path))
      else Success("# File: " + path + "\n" + content)
    case NotFound => Failure(FileNotFound(path))
    case PermissionDenied => Failure(FileAccessDenied(path))
    case OtherIoError(reason) => Failure(FileUnreadable(path, reason))
  }

  /** Reading one path of the list. */
  function EntryReader(readFile: string -> FileRead): string -> Result<string, Refusal> {
    path => FileEntry(path, readFile(path))
  }

  /** `resolve_from_files`: the entries in argument order, stopping at the
      first file that cannot be used. */
  function FromFiles(paths: seq<string>, readFile: string -> FileRead): Result<Source, Refusal> {
    match MapAll(paths, EntryReader(readFile))
    case Failure(message) => Failure(message)
    case Success(combined) => Success(Source(Join(combined, "\n\n"), Join(paths, ", "), false))
  }

  /** `resolve_from_files`, appending one entry per file. */
  method ResolveFromFiles(paths: seq<string>, readFile: string -> FileRead) returns (r: Result<Source, Refusal>)
    ensures r == FromFiles(paths, readFile)
  {
    var combined: seq<string> := [];
    for i := 0 to |paths|
      invariant MapAll(paths[..i], EntryReader(readFile)) == Success(combined)
    {
      var path := paths[i];
      assert paths[..i + 1][..i] == paths[..i];
      assert EntryReader(readFile)(path) == FileEntry(path, readFile(path));
      var entry: string;
      match readFile(path) {
        case Read(content) =>
          if AllSpace(content) {
            MapAllFailureStays(paths, EntryReader(readFile), i + 1);
            return Failure(FileIsEmpty(path));
          }
          entry := "# File: " + path + "\n" + content;
        case NotFound =>
          MapAllFailureStays(paths, EntryReader(readFile), i + 1);
          return Failure(FileNotFound(path));
        case PermissionDenied =>
          MapAllFailureStays(paths, EntryReader(readFile), i + 1);
          return Failure(FileAccessDenied(path));
        case OtherIoError(reason) =>
          MapAllFailureStays(paths, EntryReader(readFile), i + 1);
          return Failure(FileUnreadable(path, reason));
      }
      combined := combined + [entry];
    }
    assert paths[..|paths|] == paths;
    r := Success(Source(Join(combined, "\n\n"), Join(paths, ", "), false));
  }

  /** Standard input is used when asked for or when it is not a terminal. */
  predicate StdinChosen(args: Args, host: Host) {
    args.stdin || !host.stdinIsTty
  }

  /** A resolver's outcome as `resolve_code` passes it on. */
  function Chosen(r: Result<Source, Refusal>): Result<Option<Source>, Refusal> {
    match r
    case Failure(message) => Failure(message)
    case Success(source) => Success(Some(source))
  }

  /** `resolve_code`: `None` when no source is given. */
  function ResolveCode(args: Args, host: Host): Result<Option<Source>, Refusal> {
    if StdinChosen(args, host) then Chosen(FromStdin(host))
    else if args.staged then Chosen(FromStaged(host))
    else if Given(args.diff) then Chosen(FromDiff(host, args.diff.value))
    else if LastGiven(args.last) then Chosen(FromLast(host, args.last.value))
    else if args.files != [] then Chosen(FromFiles(args.files, host.readFile))
    else Success(None)
  }

  /** The sources are tried in a fixed order: standard input, staged
      changes, `--diff`, `--last`, files; the first one given decides. */
  lemma DispatchOrder(args: Args, host: Host)
    ensures StdinChosen(args, host) ==> ResolveCode(args, host) == Chosen(FromStdin(host))
    ensures !StdinChosen(args, host) && args.staged ==> ResolveCode(args, host) == Chosen(FromStaged(host))
    ensures !StdinChosen(args, host) && !args.staged && Given(args.diff) ==>
              ResolveCode(args, host) == Chosen(FromDiff(host, args.diff.value))
    ensures !StdinChosen(args, host) && !args.staged && !Given(args.diff) && LastGiven(args.last) ==>
              ResolveCode(args, host) == Chosen(FromLast(host, args.last.value))
    ensures !StdinChosen(args, host) && !args.staged && !Given(args.diff) && !LastGiven(args.last) && args.files != [] ==>
              ResolveCode(args, host) == Chosen(FromFiles(args.files, host.readFile))
  {
  }

  /** No source at all is the only way to get `None`. */
  lemma NoSourceIffNothingGiven(args: Args, host: Host)
    ensures ResolveCode(args, host) == Success(None) <==>
              !StdinChosen(args, host) && !args.staged && !Given(args.diff) && !LastGiven(args.last) && args.files == []
  {
  }

  /** The code is reviewed as a diff exactly when it comes from git. */
  lemma DiffFlagFollowsSource(args: Args, host: Host)
    requires ResolveCode(args, host).Success? && ResolveCode(args, host).value.Some?
    ensures ResolveCode(args, host).value.value.isDiff <==>
              !StdinChosen(args, host) && (args.staged || Given(args.diff) || LastGiven(args.last))
  {
  }

  /** `--last 0` counts as not given. */
  lemma LastZeroSkipped(args: Args, host: Host)
    requires args.last == Some(0)
    ensures ResolveCode(args, host) == ResolveCode(args.(last := None), host)
  {
  }

  /** A negative `--last` that gets chosen is refused, after the
      repository check. */
  lemma NegativeLastRejected(args: Args, host: Host)
    requires !StdinChosen(args, host) && !args.staged && !Given(args.diff)
    requires args.last.Some? && args.last.value < 0
    ensures ResolveCode(args, host)
            == Failure(if host.inGitRepo then NonPositiveLast else NotRepository)
  {
  }

  /** A git source outside a repository is refused. */
  lemma GitSourceNeedsRepository(args: Args, host: Host)
    requires !host.inGitRepo && !StdinChosen(args, host)
    requires args.staged || Given(args.diff) || LastGiven(args.last)
    ensures ResolveCode(args, host) == Failure(NotRepository)
  {
  }

  /** Each file's content under its `# File:` header, in argument order. */
  function Headed(paths: seq<string>, readFile: string -> FileRead): (entries: seq<string>)
    requires forall i :: 0 <= i < |paths| ==> readFile(paths[i]).Read?
    ensures |entries| == |paths|
    ensures forall i :: 0 <= i < |paths| ==> entries[i] == "# File: " + paths[i] + "\n" + readFile(paths[i]).content
  {
    seq(|paths|, i requires 0 <= i < |paths| => "# File: " + paths[i] + "\n" + readFile(paths[i]).content)
  }

  /** The files are used exactly when each can be read and is not blank;
      the text is then the entries in argument order, each headed by its
      path, and the name lists the paths. */
  lemma FilesCombined(paths: seq<string>, readFile: string -> FileRead)
    ensures FromFiles(paths, readFile).Success? <==>
              forall i :: 0 <= i < |paths| ==> readFile(paths[i]).Read? && !AllSpace(readFile(paths[i]).content)
    ensures FromFiles(paths, readFile).Success? ==>
              var s := FromFiles(paths, readFile).value;
              && !s.isDiff
              && s.filename == Join(paths, ", ")
              && s.code == Join(Headed(paths, readFile), "\n\n")
  {
    var f := EntryReader(readFile);
    MapAllOnePerItem(paths, f);
    forall i | 0 <= i < |paths|
      ensures f(paths[i]).Success? <==> readFile(paths[i]).Read? && !AllSpace(readFile(paths[i]).content)
    {
    }
    if FromFiles(paths, readFile).Success? {
      assert MapAll(paths, f).value == Headed(paths, readFile);
    }
  }

  /** Otherwise the message is the one for the first file that cannot be
      used. */
  lemma FirstUnusableFile(paths: seq<string>, readFile: string -> FileRead)
    ensures FromFiles(paths, readFile).Failure? ==>
              exists k :: 0 <= k < |paths|
                          && FileEntry(paths[k], readFile(paths[k])) == Failure(FromFiles(paths, readFile).error)
                          && forall i :: 0 <= i < k ==> FileEntry(paths[i], readFile(paths[i])).Success?
  {
    var f := EntryReader(readFile);
    MapAllOnePerItem(paths, f);
    forall i | 0 <= i < |paths|
      ensures f(paths[i]) == FileEntry(paths[i], readFile(paths[i]))
    {
    }
  }

  /** Combined files start with the first file's `# File:` header. */
  lemma FilesStartWithHeader(paths: seq<string>, readFile: string -> FileRead)
    requires paths != [] && FromFiles(paths, readFile).Success?
    ensures FromFiles(paths, readFile).value.code[0] == '#'
  {
    var f := EntryReader(readFile);
    MapAllOnePerItem(paths, f);
    var combined := MapAll(paths, f).value;
    assert combined[0] == f(paths[0]).value;
    assert combined[0][0] == '#' by {
      match readFile(paths[0])
      case Read(content) =>
        assert combined[0] == "# File: " + paths[0] + "\n" + content;
      case NotFound =>
      case PermissionDenied =>
      case OtherIoError(_) =>
    }
    assert Join(combined, "\n\n")[0] == combined[0][0];
  }

  /** Whatever the source, blank text is never passed on for review. */
  lemma ResolvedNeverBlank(args: Args, host: Host)
    requires ResolveCode(args, host).Success? && ResolveCode(args, host).value.Some?
    ensures !AllSpace(ResolveCode(args, host).value.value.code)
  {
    var s := ResolveCode(args, host).value.value;
    if !StdinChosen(args, host) && !args.staged && !Given(args.diff) && !LastGiven(args.last) {
      FilesStartWithHeader(args.files, host.readFile);
      assert !IsSpace(s.code[0]);
    }
  }
}
