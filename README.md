# create_file: an idempotent file-creation module, modelled in Dafny

The `create_file` module of the `at6man.netology` collection creates a text file
at a given path with given content. It takes a `path` (required) and a
`content` (optional, the empty string by default). It reports whether it
created the file, found it already in place, or refused because the file holds
different content.

This project models `run_module` (plugins/modules/create_file.py:52-96). It has
two modules:

- `PathPattern` (`path_pattern.dfy`) models the path validation of lines 73-78.
  First comes `re.search("^[a-zA-Z0-9_/\.\-]+$", path)`, then the check that the
  path does not end with `/`. The matcher follows the regular-expression
  engine. The greedy `+` takes the longest prefix of allowed characters
  (`ClassPrefix`, `ClassPrefixIsLongest`), and Python's `$` is then tried where that prefix stops.
  Without the MULTILINE flag, `$` matches at the end of the string or just
  before one final newline. So the model accepts a non-empty run of allowed
  characters followed by an optional single `"\n"`
  (`MatchesPathPatternCharacterization`). Because of that, `"/tmp/dir/\n"`
  passes both checks: its last character is the newline, not `/`
  (`TrailingNewlineAccepted`, `TrailingNewlineScenario`). The empty path fails
  the `+`, so the last-character test of line 76 is only reached on a
  non-empty path (`CheckPath`'s contract).
- `CreateFile` (`create_file.dfy`) models the decision over the filesystem.
  The filesystem is a `map<string, string>` from each existing path to its
  content. The outcome is the record `RunResult(changed, message, error)`:
  the `result` dictionary of lines 59-62 and the `error` flag that picks
  `fail_json` or `exit_json` at lines 93-96. `Run` is the whole decision as a
  function. `FileStore` is a class that owns the map; its `Create` method fills
  in the result branch by branch and writes the map only in the create branch,
  as the source does. The lemmas state the module's promises about `Run`:
  rejection messages, conflict preservation, creation, idempotence over the
  store, and that `changed` means the store changed. The store is keyed by the
  literal path string and returns exactly the text written; the limits of that
  abstraction are listed under "Left out".

## Model

| member | source | states |
|---|---|---|
| PathPattern.ClassPrefixIsLongest | plugins/modules/create_file.py:73 | about `ClassPrefix`, the count of characters taken by the greedy `[a-zA-Z0-9_/.-]+`: it is the length of the longest prefix of allowed characters (all of it is allowed, and the next character, if any, is not) |
| PathPattern.MatchesPathPattern | plugins/modules/create_file.py:73 | the pattern matches only a non-empty path whose first character is allowed |
| PathPattern.MatchesIffRegexAccepts | plugins/modules/create_file.py:73 | the greedy matcher accepts exactly the strings that have some non-empty allowed prefix followed by a place where `$` matches (what a backtracking search accepts) |
| PathPattern.MatchesPathPatternCharacterization | plugins/modules/create_file.py:73 | a path matches if and only if it is a non-empty run of allowed characters, optionally followed by one final newline |
| PathPattern.CheckPath | plugins/modules/create_file.py:73-78 | a path that passes both checks is non-empty and does not end with `/`; the last character is only looked at after the pattern matched |
| PathPattern.CheckPathVerdicts | plugins/modules/create_file.py:73-78 | the verdict is bad characters exactly when the path is outside the pattern's language, a trailing slash exactly when it is inside and ends with `/`, and valid exactly when it is inside and does not end with `/` |
| PathPattern.EmptyPathHasBadCharacters | plugins/modules/create_file.py:73-75 | the empty path fails the character check |
| PathPattern.BadCharacterWins | plugins/modules/create_file.py:73-78 | a character outside the class anywhere (a newline excepted only in last position) makes the verdict the character-check failure, whatever the last character is |
| PathPattern.CleanPathVerdict | plugins/modules/create_file.py:73-78 | a non-empty path of allowed characters is rejected for a trailing slash exactly when it ends with `/`, and accepted otherwise |
| PathPattern.TrailingNewlineAccepted | plugins/modules/create_file.py:73-78 | any non-empty run of allowed characters followed by `"\n"` passes both checks, even when the run ends with `/` |
| CreateFile.Run | plugins/modules/create_file.py:73-91 | no existing path is removed or rewritten, and the only path that can be added is the requested one |
| CreateFile.BadCharactersOutcome | plugins/modules/create_file.py:73-75 | the character-check message is reported exactly when the path is outside the pattern's language; then the call is an error with `changed=false` and an unchanged store |
| CreateFile.TrailingSlashOutcome | plugins/modules/create_file.py:76-78 | the trailing-slash message is reported exactly when the path is inside the pattern's language and ends with `/`; then the call is an error with `changed=false` and an unchanged store |
| CreateFile.CharacterCheckComesFirst | plugins/modules/create_file.py:73-78 | a path that ends with `/` and holds a forbidden character gets the character-check message |
| CreateFile.ExistingSameContent | plugins/modules/create_file.py:79-83 | a valid path that already holds the requested content gives success, `changed=false`, "The file already exists", and an unchanged store |
| CreateFile.ExistingDifferentContent | plugins/modules/create_file.py:84-86 | a valid path holding other content gives an error, `changed=false`, "The file already exists, but its content differs", and the existing content is kept |
| CreateFile.AbsentPathCreated | plugins/modules/create_file.py:87-91 | a valid absent path then holds exactly the requested content, every other path is unchanged, and the result is `changed=true`, "The file was created" |
| CreateFile.DefaultContentIsEmpty | plugins/modules/create_file.py:56 | without a content argument, a valid absent path becomes an empty file |
| CreateFile.ChangedIffStoreAltered | plugins/modules/create_file.py:59-62 | `changed` is true exactly when the store was altered, which is exactly when the path is in the pattern's language, does not end with `/`, and is absent |
| CreateFile.ErrorsChangeNothing | plugins/modules/create_file.py:93-94 | every message is non-empty, and every error carries `changed=false` and leaves the store unchanged |
| CreateFile.RepeatIsIdempotent | plugins/modules/create_file.py:79-91 | after a call without error, the same call on the resulting store succeeds with `changed=false`, "The file already exists", and the same store |
| CreateFile.CreateThenRepeatScenario | plugins/modules/create_file.py:79-91 | creating `/tmp/test.txt` with `hello` in an empty store creates it, and repeating the call reports that it already exists |
| CreateFile.BadPathScenario | plugins/modules/create_file.py:73-75 | `/tmp/bad path!.txt` is refused with the character-check message and nothing is created |
| CreateFile.TrailingSlashScenario | plugins/modules/create_file.py:76-78 | `/tmp/dir/` is refused with the trailing-slash message and nothing is created |
| CreateFile.TrailingNewlineScenario | plugins/modules/create_file.py:73-91 | `"/tmp/dir/\n"` passes validation and, when absent, is created under that name |
| CreateFile.FileStore.constructor | plugins/modules/create_file.py:79-89 | the store starts as the given map |
| CreateFile.FileStore.Create | plugins/modules/create_file.py:52-96 | the new store and the returned record are those `Run` gives for the old store, the path and the content |
| CreateFile.CreateTwice | plugins/modules/create_file.py:79-91 | through the class: the first call's record is the one `Run` gives for the old store; after a first call without error, a second identical call reports no change, and the store ends as the old store with the path mapped to the requested content, every other path as before; a first call with an error is repeated with the same record and leaves the store unchanged |

## Left out

- The Ansible plumbing (argument parsing by `AnsibleModule`, `exit_json` and `fail_json`, lines 64-67 and 93-96) is a foreign library. The model keeps only the record handed to it, with `error` standing for the choice of `fail_json`.
- Real filesystem behaviour of `os.path.exists`, `open`, `read` and `write` (lines 79-89) is not modelled. The map stands in for the filesystem. So a missing parent directory, a directory at the path (which `exists` accepts and `open` refuses), permissions and encoding errors do not appear. In the source these are unhandled exceptions.
- Path resolution is not modelled. The store is keyed by the literal path string, so `.` and `..` segments, repeated `/`, relative paths and symbolic links that name an existing file are treated as a different, absent path. In those cases the model reports "The file was created" where the source, whose `os.path.exists` (line 79) resolves the path, reports that the file already exists or that its content differs.
- Newline translation of text-mode files is not modelled. The source writes with `open(path, 'w')` and reads with `open(path, 'r')` (lines 80-81 and 88-89), and reading in text mode turns a stored `"\r\n"` or `"\r"` into `"\n"`. So for content containing `"\r"` a second identical call in the source fails with "The file already exists, but its content differs", while the store returns exactly what was written and `RepeatIsIdempotent` holds for every content.
- Races between concurrent calls on the same path are not modelled. The source has no coordination.
- Check mode is not modelled. The source declares `supports_check_mode=False`, so there is no dry run to model.
- The `DOCUMENTATION`, `EXAMPLES` and `RETURN` strings and `main()` (lines 8-46 and 99-104) are metadata and an entry point.
