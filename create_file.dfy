/** The decision of `run_module` in the create_file module: validate the path,
    then, over a store that maps each existing path to its content, either
    confirm a file that already has the requested content, refuse a file whose
    content differs, or create the file with exactly the requested content. */
module CreateFile {
  import opened PathPattern

  /** A file store: each existing path and the text it holds. */
  type FileSystem = map<string, string>

  const BadCharactersMessage := "Incorrect file path, allowed symbols are: a-zA-Z0-9_-/."
  const TrailingSlashMessage := "Incorrect file path, / at the end of the path is not allowed"
  const AlreadyExistsMessage := "The file already exists"
  const ContentDiffersMessage := "The file already exists, but its content differs"
  const CreatedMessage := "The file was created"

  /** The record handed to the module's exit: the `result` dictionary
      (`changed`, `message`) and the `error` flag that chooses between the
      failure and the success exit. */
  datatype RunResult = RunResult(changed: bool, message: string, error: bool)

  /** The store after a call together with the reported result. */
  datatype Outcome = Outcome(files: FileSystem, result: RunResult)

  /** The whole decision as a function of the store before the call, the path
      and the content (whose default is the empty string). No existing entry
      is ever removed or rewritten, and at most the requested path is added. */
  function Run(fs: FileSystem, path: string, content: string := ""): (out: Outcome)
    ensures forall q :: q in fs ==> q in out.files && out.files[q] == fs[q]
    ensures forall q :: q in out.files ==> q in fs || q == path
  {
    match CheckPath(path)
    case BadCharacters => Outcome(fs, RunResult(false, BadCharactersMessage, true))
    case TrailingSlash => Outcome(fs, RunResult(false, TrailingSlashMessage, true))
    case PathOk =>
      if path in fs then
        if fs[path] == content then Outcome(fs, RunResult(false, AlreadyExistsMessage, false))
        else Outcome(fs, RunResult(false, ContentDiffersMessage, true))
      else Outcome(fs[path := content], RunResult(true, CreatedMessage, false))
  }

  /** A path outside the pattern's language (the empty path among them) is an
      error with the character-check message, reports no change and leaves the
      store as it was; that message appears for no other reason. */
  lemma BadCharactersOutcome(fs: FileSystem, path: string, content: string)
    ensures var out := Run(fs, path, content);
      (out.result.message == BadCharactersMessage <==> !InPathLanguage(path)) &&
      (!InPathLanguage(path) ==>
        out.result == RunResult(false, BadCharactersMessage, true) && out.files == fs)
  {
    CheckPathVerdicts(path);
  }

  /** A path in the pattern's language that ends with `/` is an error with the
      trailing-slash message, reports no change and leaves the store as it
      was; that message appears for no other reason. */
  lemma TrailingSlashOutcome(fs: FileSystem, path: string, content: string)
    ensures var out := Run(fs, path, content);
      (out.result.message == TrailingSlashMessage <==>
         InPathLanguage(path) && path[|path| - 1] == '/') &&
      (out.result.message == TrailingSlashMessage ==>
         out.result == RunResult(false, TrailingSlashMessage, true) && out.files == fs)
  {
    CheckPathVerdicts(path);
  }

  /** When a path both holds a forbidden character and ends with `/`, the
      character check decides the message. */
  lemma CharacterCheckComesFirst(fs: FileSystem, path: string, content: string, i: nat)
    requires |path| > 0 && path[|path| - 1] == '/'
    requires i < |path| && !IsPathChar(path[i])
    ensures Run(fs, path, content).result == RunResult(false, BadCharactersMessage, true)
  {
    BadCharacterWins(path, i);
  }

  /** A valid path that already holds exactly the requested content: success,
      no change, and the store is untouched. */
  lemma ExistingSameContent(fs: FileSystem, path: string, content: string)
    requires CheckPath(path) == PathOk
    requires path in fs && fs[path] == content
    ensures Run(fs, path, content) == Outcome(fs, RunResult(false, AlreadyExistsMessage, false))
  {
  }

  /** A valid path that holds other content: an error, no change, and the
      existing content is preserved. */
  lemma ExistingDifferentContent(fs: FileSystem, path: string, content: string)
    requires CheckPath(path) == PathOk
    requires path in fs && fs[path] != content
    ensures var out := Run(fs, path, content);
      out.result == RunResult(false, ContentDiffersMessage, true) &&
      out.files == fs
  {
  }

  /** A valid path that is absent: afterwards it holds exactly the requested
      content, every other path is as before, and the result reports a change. */
  lemma AbsentPathCreated(fs: FileSystem, path: string, content: string)
    requires CheckPath(path) == PathOk
    requires path !in fs
    ensures var out := Run(fs, path, content);
      out.result == RunResult(true, CreatedMessage, false) &&
      path in out.files && out.files[path] == content &&
      (forall q :: q != path ==> (q in out.files <==> q in fs)) &&
      (forall q :: q != path && q in fs ==> out.files[q] == fs[q])
  {
  }

  /** Without a content argument a valid absent path becomes an empty file. */
  lemma DefaultContentIsEmpty(fs: FileSystem, path: string)
    requires CheckPath(path) == PathOk
    requires path !in fs
    ensures Run(fs, path).files == fs[path := ""]
    ensures Run(fs, path).result.changed
  {
  }

  /** `changed` is reported exactly when the store was altered, which happens
      exactly in the create branch: a valid path that was absent. */
  lemma ChangedIffStoreAltered(fs: FileSystem, path: string, content: string)
    ensures var out := Run(fs, path, content);
      (out.result.changed <==> out.files != fs) &&
      (out.result.changed <==>
         InPathLanguage(path) && path[|path| - 1] != '/' && path !in fs)
  {
    CheckPathVerdicts(path);
    var out := Run(fs, path, content);
    if CheckPath(path) == PathOk && path !in fs {
      assert path in out.files;
    }
  }

  /** Every error reports no change, carries a non-empty message and leaves the
      store as it was; every call carries a non-empty message. */
  lemma ErrorsChangeNothing(fs: FileSystem, path: string, content: string)
    ensures var out := Run(fs, path, content);
      out.result.message != "" &&
      (out.result.error ==> !out.result.changed && out.files == fs)
  {
  }

  /** Repeating a call that succeeded, with the same arguments on the store it
      left behind, succeeds without change, reports that the file already
      exists, and leaves the store as it was. */
  lemma RepeatIsIdempotent(fs: FileSystem, path: string, content: string)
    requires !Run(fs, path, content).result.error
    ensures var first := Run(fs, path, content);
      var second := Run(first.files, path, content);
      second.files == first.files &&
      second.result == RunResult(false, AlreadyExistsMessage, false)
  {
  }

  /** Creating "/tmp/test.txt" with "hello" in an empty store creates it;
      the same call again reports that the file already exists. */
  lemma CreateThenRepeatScenario()
    ensures var first := Run(map[], "/tmp/test.txt", "hello");
      first.result == RunResult(true, CreatedMessage, false) &&
      first.files == map["/tmp/test.txt" := "hello"] &&
      Run(first.files, "/tmp/test.txt", "hello") ==
        Outcome(first.files, RunResult(false, AlreadyExistsMessage, false))
  {
    CleanPathVerdict("/tmp/test.txt");
  }

  /** A space and an exclamation mark are refused, and nothing is created. */
  lemma BadPathScenario(fs: FileSystem)
    ensures Run(fs, "/tmp/bad path!.txt", "x") ==
      Outcome(fs, RunResult(false, BadCharactersMessage, true))
  {
  }

  /** A directory-like path is refused for its trailing slash. */
  lemma TrailingSlashScenario(fs: FileSystem)
    ensures Run(fs, "/tmp/dir/", "x") ==
      Outcome(fs, RunResult(false, TrailingSlashMessage, true))
  {
  }

  /** The same directory-like path followed by a newline passes both checks,
      since `$` matches before the final newline and the last character is
      then not `/`: a file whose name ends in a newline is created. */
  lemma TrailingNewlineScenario(fs: FileSystem)
    requires "/tmp/dir/\n" !in fs
    ensures Run(fs, "/tmp/dir/\n", "x") ==
      Outcome(fs["/tmp/dir/\n" := "x"], RunResult(true, CreatedMessage, false))
  {
  }

  /** The store, with the one operation the module offers. */
  class FileStore {
    var files: FileSystem

    constructor (initial: FileSystem)
      ensures files == initial
    {
      files := initial;
    }

    /** `run_module`: the result record is filled in branch by branch and the
        store is written only in the create branch; the new store and the
        result are those of `Run`. */
    method Create(path: string, content: string := "") returns (r: RunResult)
      modifies this
      ensures files == Run(old(files), path, content).files
      ensures r == Run(old(files), path, content).result
    {
      var changed, message := false, "";
      var error := false;
      if !MatchesPathPattern(path) {
        message := BadCharactersMessage;
        error := true;
      } else if path[|path| - 1] == '/' {
        message := TrailingSlashMessage;
        error := true;
      } else if path in files {
        var previous := files[path];
        if previous == content {
          message := AlreadyExistsMessage;
        } else {
          message := ContentDiffersMessage;
          error := true;
        }
      } else {
        files := files[path := content];
        changed := true;
        message := CreatedMessage;
      }
      r := RunResult(changed, message, error);
    }
  }

  /** Two calls in a row with the same arguments, as a caller of the class
      sees them: a first call that succeeded is followed by a second that
      changes nothing: the store ends as the old store with the path mapped to
      the requested content, every other path as before. A first call that
      fails is repeated with the same record and leaves the store untouched. */
  method CreateTwice(store: FileStore, path: string, content: string)
    returns (first: RunResult, second: RunResult)
    modifies store
    ensures first == Run(old(store.files), path, content).result
    ensures !first.error ==>
      !second.error && !second.changed && second.message == AlreadyExistsMessage &&
      store.files == old(store.files)[path := content]
    ensures first.error ==> second == first && store.files == old(store.files)
  {
    first := store.Create(path, content);
    ghost var between := store.files;
    second := store.Create(path, content);
    if !first.error {
      RepeatIsIdempotent(old(store.files), path, content);
    } else {
      ErrorsChangeNothing(old(store.files), path, content);
      ErrorsChangeNothing(between, path, content);
    }
  }
}
