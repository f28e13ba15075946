/** The path validation of the create_file module: the regular expression
    `^[a-zA-Z0-9_/\.\-]+$`, searched with Python's `re.search` and no flags,
    followed by the check that the path does not end with `/`.

    Without the MULTILINE flag, `^` matches only at the start of the string and
    `$` matches at the end of the string OR just before a single newline that
    ends the string. The matcher below follows the regular-expression engine:
    the greedy `+` takes the longest run of allowed characters from the start,
    and `$` is then tried at the position where that run stops. */
module PathPattern {

  /** A character of the class `[a-zA-Z0-9_/.-]`. */
  predicate IsPathChar(c: char) {
    ('a' <= c <= 'z') || ('A' <= c <= 'Z') || ('0' <= c <= '9') ||
    c == '_' || c == '/' || c == '.' || c == '-'
  }

  predicate AllPathChars(s: string) {
    forall i :: 0 <= i < |s| ==> IsPathChar(s[i])
  }

  /** Where Python's `$` (no MULTILINE) matches: at the very end, or just before
      a newline that is the last character. */
  predicate EndAnchorAt(s: string, k: nat) {
    k == |s| || (k + 1 == |s| && s[k] == '\n')
  }

  /** The number of characters the greedy `[...]+` consumes from the start. */
  function ClassPrefix(s: string): (n: nat) {
    if |s| == 0 || !IsPathChar(s[0]) then 0 else 1 + ClassPrefix(s[1..])
  }

  /** What the greedy `+` consumes is the longest prefix of allowed characters:
      all of it is allowed, and the character after it, if any, is not. */
  lemma {:induction false} ClassPrefixIsLongest(s: string)
    ensures ClassPrefix(s) <= |s|
    ensures AllPathChars(s[..ClassPrefix(s)])
    ensures ClassPrefix(s) < |s| ==> !IsPathChar(s[ClassPrefix(s)])
  {
    if |s| > 0 && IsPathChar(s[0]) {
      ClassPrefixIsLongest(s[1..]);
      var n := ClassPrefix(s);
      assert s[..n] == [s[0]] + s[1..][..n - 1];
    }
  }

  /** `re.search("^[a-zA-Z0-9_/\\.\\-]+$", s)` is truthy. The empty string never
      matches, because `+` asks for at least one character. */
  function MatchesPathPattern(s: string): (b: bool)
    ensures b ==> |s| > 0 && IsPathChar(s[0])
  {
    var n := ClassPrefix(s);
    1 <= n && EndAnchorAt(s, n)
  }

  /** The regular expression read as a language: some non-empty prefix of
      allowed characters is followed by a position where `$` matches. This is
      what a backtracking engine accepts. */
  ghost predicate RegexAccepts(s: string) {
    exists k: nat :: 1 <= k <= |s| && AllPathChars(s[..k]) && EndAnchorAt(s, k)
  }

  /** The greedy matcher accepts exactly what the regular expression accepts:
      backtracking never helps, because `$` cannot match before an allowed
      character. */
  lemma MatchesIffRegexAccepts(s: string)
    ensures MatchesPathPattern(s) <==> RegexAccepts(s)
  {
    ClassPrefixIsLongest(s);
    var m := ClassPrefix(s);
    if MatchesPathPattern(s) {
      assert 1 <= m <= |s| && AllPathChars(s[..m]) && EndAnchorAt(s, m);
    }
    if RegexAccepts(s) {
      var k: nat :| 1 <= k <= |s| && AllPathChars(s[..k]) && EndAnchorAt(s, k);
      assert m == k;
    }
  }

  /** The accepted paths in plain words: a non-empty run of allowed characters,
      optionally followed by ONE newline. */
  ghost predicate InPathLanguage(s: string) {
    (|s| >= 1 && AllPathChars(s)) ||
    (|s| >= 2 && s[|s| - 1] == '\n' && AllPathChars(s[..|s| - 1]))
  }

  /** The greedy matcher accepts exactly that language. */
  lemma MatchesPathPatternCharacterization(s: string)
    ensures MatchesPathPattern(s) <==> InPathLanguage(s)
  {
    MatchesIffRegexAccepts(s);
    assert s[..|s|] == s;
    if |s| >= 2 && s[|s| - 1] == '\n' && AllPathChars(s[..|s| - 1]) {
      assert EndAnchorAt(s, |s| - 1);
    }
    if |s| >= 1 && AllPathChars(s) {
      assert AllPathChars(s[..|s|]) && EndAnchorAt(s, |s|);
    }
  }

  /** The outcome of the two checks, in the order the source makes them. */
  datatype PathVerdict = PathOk | BadCharacters | TrailingSlash

  /** The `if` / `elif` pair of the source: the character check first, then the
      trailing slash. The index of the last character is only taken once the
      pattern has matched, and a matching path is never empty. */
  function CheckPath(path: string): (v: PathVerdict)
    ensures v == PathOk ==> |path| > 0 && path[|path| - 1] != '/'
  {
    if !MatchesPathPattern(path) then BadCharacters
    else if path[|path| - 1] == '/' then TrailingSlash
    else PathOk
  }

  /** Each verdict in plain words: bad characters exactly outside the
      language; otherwise the last character decides between a trailing slash
      and a valid path. */
  lemma CheckPathVerdicts(path: string)
    ensures CheckPath(path) == BadCharacters <==> !InPathLanguage(path)
    ensures CheckPath(path) == TrailingSlash <==> InPathLanguage(path) && path[|path| - 1] == '/'
    ensures CheckPath(path) == PathOk <==> InPathLanguage(path) && path[|path| - 1] != '/'
  {
    MatchesPathPatternCharacterization(path);
  }

  /** The empty path fails the character check, so its last character is never
      asked for. */
  lemma EmptyPathHasBadCharacters()
    ensures CheckPath("") == BadCharacters
  {
  }

  /** A path with a character outside the class anywhere before its last
      position, or a last character that is neither allowed nor a newline, is
      reported as bad characters, whatever else is wrong with it: the character
      check wins over the trailing-slash check. */
  lemma BadCharacterWins(path: string, i: nat)
    requires i < |path| && !IsPathChar(path[i])
    requires i + 1 < |path| || path[i] != '\n'
    ensures CheckPath(path) == BadCharacters
  {
    MatchesPathPatternCharacterization(path);
    if i + 1 < |path| {
      assert path[..|path| - 1][i] == path[i];
    }
  }

  /** A path of allowed characters is rejected for its trailing slash exactly
      when it ends with `/`, and accepted otherwise. */
  lemma CleanPathVerdict(path: string)
    requires |path| > 0 && AllPathChars(path)
    ensures CheckPath(path) == (if path[|path| - 1] == '/' then TrailingSlash else PathOk)
  {
    MatchesPathPatternCharacterization(path);
  }

  /** Because `$` also matches before a final newline, a run of allowed
      characters followed by "\n" passes BOTH checks, even when the run ends
      with `/`: the last character is then the newline. */
  lemma TrailingNewlineAccepted(t: string)
    requires |t| >= 1 && AllPathChars(t)
    ensures CheckPath(t + "\n") == PathOk
  {
    var s := t + "\n";
    assert s[..|s| - 1] == t;
    MatchesPathPatternCharacterization(s);
  }
}
