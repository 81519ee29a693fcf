/** Creating an app from a git repository: the guard that keeps the
    repository URL and ref away from shell metacharacters, the translation of
    a failed clone into an HTTP error, and the split of a conda-project's
    variables into app settings and environment variables. */
module GitRepository {
  import opened Text
  import opened Http

  /** The `Repository` request model: only a truthy `ref` (present and
      non-empty) selects a branch. */
  datatype Repository = Repository(url: string, configDirectory: string, ref: Option<string>)

  /** Python truthiness of `repository.ref`. */
  predicate HasRef(repo: Repository) {
    repo.ref.Some? && repo.ref.value != ""
  }

  // ---------------------------------------------------------------------
  // The scheme of a URL, after CPython's `urllib.parse.urlsplit`
  // ---------------------------------------------------------------------

  predicate IsAsciiLetter(c: char) {
    'a' <= c <= 'z' || 'A' <= c <= 'Z'
  }

  /** `urllib.parse.scheme_chars` */
  predicate IsSchemeChar(c: char) {
    IsAsciiLetter(c) || '0' <= c <= '9' || c == '+' || c == '-' || c == '.'
  }

  /** Leading C0 control characters and spaces are dropped. */
  function LStripControl(s: string): string {
    if s != [] && s[0] <= ' ' then LStripControl(s[1..]) else s
  }

  /** Tab, carriage return and line feed are deleted wherever they are. */
  function RemoveTabsAndNewlines(s: string): (r: string)
    ensures '\t' !in r && '\r' !in r && '\n' !in r
  {
    if s == [] then []
    else (if s[0] in "\t\r\n" then [] else [s[0]]) + RemoveTabsAndNewlines(s[1..])
  }

  /** `urlparse(url).scheme`: the lower-cased text before the first `:` when
      that text is non-empty, starts with an ASCII letter and holds only scheme
      characters, and the empty string otherwise. */
  function UrlScheme(url: string): (r: string)
    ensures r != "" ==> 'a' <= r[0] <= 'z'
    ensures forall k :: 0 <= k < |r| ==> IsSchemeChar(r[k]) && !('A' <= r[k] <= 'Z')
  {
    var u := RemoveTabsAndNewlines(LStripControl(url));
    match Find(u, ":")
    case None => ""
    case Some(i) =>
      if i > 0 && IsAsciiLetter(u[0]) && (forall k :: 0 <= k < i ==> IsSchemeChar(u[k]))
      then Lower(u[..i]) else ""
  }

  /** A URL written `scheme:rest` with a lower-case scheme has that scheme,
      whatever follows the colon. */
  lemma SchemeOfPlainUrl(scheme: string, rest: string)
    requires |scheme| > 0
    requires forall k :: 0 <= k < |scheme| ==> 'a' <= scheme[k] <= 'z'
    ensures UrlScheme(scheme + ":" + rest) == scheme
  {
    var head := scheme + ":";
    var url := head + rest;
    assert LStripControl(url) == url by {
      assert url[0] == scheme[0];
    }
    var tail := RemoveTabsAndNewlines(rest);
    var u := RemoveTabsAndNewlines(url);
    assert u == scheme + [':'] + tail by {
      RemoveConcat(head, rest);
      RemoveKeeps(head);
    }
    assert Find(u, ":") == Some(|scheme|) by {
      assert ':' !in scheme by {
        forall k | 0 <= k < |scheme| ensures scheme[k] != ':' { }
      }
      FindAfterPrefix(scheme, tail, ':');
    }
    assert u[..|scheme|] == scheme;
  }

  lemma {:induction false} RemoveKeeps(s: string)
    requires '\t' !in s && '\r' !in s && '\n' !in s
    ensures RemoveTabsAndNewlines(s) == s
  {
    if s != [] {
      RemoveKeeps(s[1..]);
    }
  }

  /** The deletion of tabs and line ends works piece by piece. */
  lemma {:induction false} RemoveConcat(a: string, b: string)
    ensures RemoveTabsAndNewlines(a + b) == RemoveTabsAndNewlines(a) + RemoveTabsAndNewlines(b)
  {
    if a == [] {
      assert a + b == b;
    } else {
      var x := if a[0] in "\t\r\n" then [] else [a[0]];
      var ra := RemoveTabsAndNewlines(a[1..]);
      var rb := RemoveTabsAndNewlines(b);
      assert RemoveTabsAndNewlines(a) == x + ra;
      assert RemoveTabsAndNewlines(a + b) == x + RemoveTabsAndNewlines(a[1..] + b) by {
        assert (a + b)[0] == a[0] && (a + b)[1..] == a[1..] + b;
      }
      RemoveConcat(a[1..], b);
      assert x + (ra + rb) == (x + ra) + rb;
    }
  }

  // ---------------------------------------------------------------------
  // _validate_git_repository
  // ---------------------------------------------------------------------

  const AllowedSchemes: seq<string> := ["https", "http", "git", "ssh"]

  /** Characters refused anywhere in the URL. */
  const UrlForbidden: seq<string> := [";", "|", "&", "$", "`", "\n", "\r"]

  /** Substrings refused anywhere in the ref. */
  const RefForbidden: seq<string> := [";", "|", "&", "$", "`", "../", "\n", "\r"]

  const InvalidSchemeDetail := "Invalid URL scheme. Only " + Join(AllowedSchemes, ", ") + " protocols are allowed."
  const InvalidUrlDetail := "Invalid characters in repository URL"
  const InvalidRefNameDetail := "Invalid branch or ref name. Only alphanumeric characters, dots, hyphens, underscores, and slashes are allowed."
  const InvalidRefCharsDetail := "Invalid characters in branch or ref name"

  /** One character of the class `[\w\-./ ]`; `isWord` stands for Python's
      Unicode `\w`. */
  predicate InRefClass(isWord: char -> bool, c: char) {
    isWord(c) || c == '-' || c == '.' || c == '/' || c == ' '
  }

  predicate AllInRefClass(isWord: char -> bool, s: string) {
    forall i :: 0 <= i < |s| ==> InRefClass(isWord, s[i])
  }

  /** `re.match(r'^[\w\-./ ]+$', s)` succeeds: one or more class characters
      up to the end, where `$` also matches just before a final line feed. */
  predicate RefPatternMatches(isWord: char -> bool, s: string) {
    || (|s| > 0 && AllInRefClass(isWord, s))
    || (|s| > 1 && s[|s| - 1] == '\n' && AllInRefClass(isWord, s[..|s| - 1]))
  }

  /** `_validate_git_repository`: the first failing check raises 400. */
  function ValidateRepository(repo: Repository, isWord: char -> bool): (r: Outcome)
    ensures r.Fail? ==> r.error.status == BadRequest
  {
    if UrlScheme(repo.url) !in AllowedSchemes then
      Fail(HttpError(BadRequest, InvalidSchemeDetail))
    else if ContainsAny(repo.url, UrlForbidden) then
      Fail(HttpError(BadRequest, InvalidUrlDetail))
    else if HasRef(repo) && !RefPatternMatches(isWord, repo.ref.value) then
      Fail(HttpError(BadRequest, InvalidRefNameDetail))
    else if HasRef(repo) && ContainsAny(repo.ref.value, RefForbidden) then
      Fail(HttpError(BadRequest, InvalidRefCharsDetail))
    else
      Pass
  }

  /** The URL half of validation, stated without the source's order of checks. */
  predicate SafeUrl(url: string) {
    && UrlScheme(url) in AllowedSchemes
    && ';' !in url && '|' !in url && '&' !in url && '$' !in url && '`' !in url
    && '\n' !in url && '\r' !in url
  }

  /** A safe ref: non-empty, only class characters, and none of the refused
      substrings. */
  predicate SafeRef(isWord: char -> bool, ref: string) {
    && |ref| > 0 && AllInRefClass(isWord, ref)
    && ';' !in ref && '|' !in ref && '&' !in ref && '$' !in ref && '`' !in ref
    && !Contains(ref, "../") && '\n' !in ref && '\r' !in ref
  }

  lemma ForbiddenChars(s: string, patterns: seq<string>)
    requires patterns == UrlForbidden || patterns == RefForbidden
    ensures ContainsAny(s, patterns) <==>
      || ';' in s || '|' in s || '&' in s || '$' in s || '`' in s || '\n' in s || '\r' in s
      || (patterns == RefForbidden && Contains(s, "../"))
  {
    ContainsChar(s, ';');
    ContainsChar(s, '|');
    ContainsChar(s, '&');
    ContainsChar(s, '$');
    ContainsChar(s, '`');
    ContainsChar(s, '\n');
    ContainsChar(s, '\r');
    if patterns == UrlForbidden {
      assert patterns[0] == ";" && patterns[1] == "|" && patterns[2] == "&" && patterns[3] == "$";
      assert patterns[4] == "`" && patterns[5] == "\n" && patterns[6] == "\r";
    } else {
      assert patterns[0] == ";" && patterns[1] == "|" && patterns[2] == "&" && patterns[3] == "$";
      assert patterns[4] == "`" && patterns[5] == "../" && patterns[6] == "\n" && patterns[7] == "\r";
    }
  }

  /** Validation passes exactly when the URL is safe and the ref is either
      absent, empty or safe. */
  lemma ValidateIff(repo: Repository, isWord: char -> bool)
    ensures ValidateRepository(repo, isWord) == Pass <==>
      SafeUrl(repo.url) && (!HasRef(repo) || SafeRef(isWord, repo.ref.value))
  {
    ForbiddenChars(repo.url, UrlForbidden);
    if HasRef(repo) {
      var ref := repo.ref.value;
      ForbiddenChars(ref, RefForbidden);
      if RefPatternMatches(isWord, ref) && !AllInRefClass(isWord, ref) {
        assert ref[|ref| - 1] == '\n';
      }
    }
  }

  /** A URL whose scheme is not allowed is refused with the scheme message,
      whatever else the URL or the ref hold. */
  lemma SchemeCheckedFirst(repo: Repository, isWord: char -> bool)
    requires UrlScheme(repo.url) !in AllowedSchemes
    ensures ValidateRepository(repo, isWord) == Fail(HttpError(400, InvalidSchemeDetail))
  {
  }

  /** The scheme message lists the allowed schemes as `', '.join` does. */
  lemma SchemeListText()
    ensures Join(AllowedSchemes, ", ") == "https, http, git, ssh"
  {
    var last2: seq<string> := ["git", "ssh"];
    var last3: seq<string> := ["http", "git", "ssh"];
    assert Join(last2, ", ") == "git, ssh" by {
      assert last2[1..] == ["ssh"];
    }
    assert Join(last3, ", ") == "http, git, ssh" by {
      assert last3[1..] == last2;
    }
    assert AllowedSchemes[1..] == last3;
  }

  /** With an allowed scheme, any of the refused characters in the URL gives
      the URL-characters error, whatever the ref. */
  lemma UrlCharactersChecked(repo: Repository, isWord: char -> bool, c: char)
    requires UrlScheme(repo.url) in AllowedSchemes
    requires c in repo.url && c in ";|&$`\n\r"
    ensures ValidateRepository(repo, isWord) == Fail(HttpError(400, "Invalid characters in repository URL"))
  {
    ForbiddenChars(repo.url, UrlForbidden);
  }

  /** A missing or empty ref is never looked at: the verdict is the one for
      the same URL without a ref. */
  lemma NoRefSkipsRefChecks(repo: Repository, isWord: char -> bool)
    requires !HasRef(repo)
    ensures ValidateRepository(repo, isWord) == ValidateRepository(Repository(repo.url, repo.configDirectory, None), isWord)
    ensures ValidateRepository(repo, isWord) == Pass <==> SafeUrl(repo.url)
  {
    ValidateIff(repo, isWord);
  }

  /** An accepted non-empty ref holds only class characters and none of the
      refused substrings. */
  lemma AcceptedRefIsSafe(repo: Repository, isWord: char -> bool)
    requires ValidateRepository(repo, isWord) == Pass && HasRef(repo)
    ensures AllInRefClass(isWord, repo.ref.value)
    ensures forall k :: 0 <= k < |RefForbidden| ==> !Contains(repo.ref.value, RefForbidden[k])
  {
    ValidateIff(repo, isWord);
  }

  /** The pattern admits a ref with one trailing line feed, and the substring
      check after it is what refuses that ref. */
  lemma TrailingNewlineRefused(url: string, configDirectory: string, name: string, isWord: char -> bool)
    requires SafeUrl(url) && SafeRef(isWord, name)
    ensures RefPatternMatches(isWord, name + "\n")
    ensures ValidateRepository(Repository(url, configDirectory, Some(name + "\n")), isWord)
            == Fail(HttpError(400, InvalidRefCharsDetail))
  {
    var ref := name + "\n";
    assert ref[..|ref| - 1] == name;
    ForbiddenChars(url, UrlForbidden);
    ForbiddenChars(ref, RefForbidden);
    assert '\n' in ref;
  }

  // ---------------------------------------------------------------------
  // _clone_repo
  // ---------------------------------------------------------------------

  /** How `git.Repo.clone_from` ended; a `GitCommandError` carries `str(e)`. */
  datatype CloneOutcome =
    | Cloned
    | GitCommandError(message: string)
    | GitErrorOrTimeout
    | OtherException

  predicate AuthenticationMessage(msg: string) {
    Contains(msg, "Authentication failed") || Contains(msg, "fatal: could not read")
  }

  predicate RepositoryMissingMessage(msg: string) {
    Contains(msg, "Repository not found") || Contains(msg, "does not exist")
  }

  predicate RefMissingMessage(msg: string) {
    Contains(msg, "unknown revision") || Contains(msg, "not found")
  }

  const AuthFailedDetail := "Git authentication failed. Please check your credentials."
  const CloneFailedDetail := "Failed to clone repository. Please verify the repository URL is correct."
  const TimeoutDetail := "Git clone operation timed out. The repository may be too large or the server is unreachable."
  const UnexpectedDetail := "An unexpected error occurred while cloning the repository."

  /** The `except git.exc.GitCommandError` branch: an ordered chain of
      substring tests on the error message. */
  function ClassifyGitCommandError(repo: Repository, msg: string): (e: HttpError)
    ensures e.status in {BadRequest, Unauthorized, NotFound}
  {
    if AuthenticationMessage(msg) then
      HttpError(Unauthorized, AuthFailedDetail)
    else if RepositoryMissingMessage(msg) then
      HttpError(NotFound, "Repository not found: " + repo.url)
    else if HasRef(repo) && RefMissingMessage(msg) then
      HttpError(NotFound, "Branch or ref '" + repo.ref.value + "' not found in repository")
    else
      HttpError(BadRequest, CloneFailedDetail)
  }

  /** `_clone_repo`: validate, then (only if that passes) clone and translate
      the failure. */
  function CloneRepo(repo: Repository, isWord: char -> bool, clone: CloneOutcome): (r: Outcome)
  {
    match ValidateRepository(repo, isWord)
    case Fail(e) => Fail(e)
    case Pass =>
      match clone
      case Cloned => Pass
      case GitCommandError(msg) => Fail(ClassifyGitCommandError(repo, msg))
      case GitErrorOrTimeout => Fail(HttpError(GatewayTimeout, TimeoutDetail))
      case OtherException => Fail(HttpError(InternalServerError, UnexpectedDetail))
  }

  /** A repository that fails validation is never cloned: the result is the
      validation error, whatever the clone would have done. */
  lemma CloneValidatesFirst(repo: Repository, isWord: char -> bool, clone: CloneOutcome, other: CloneOutcome)
    ensures ValidateRepository(repo, isWord).Fail? ==>
      CloneRepo(repo, isWord, clone) == ValidateRepository(repo, isWord)
    ensures CloneRepo(repo, isWord, clone) == Pass <==>
      (ValidateRepository(repo, isWord) == Pass && clone == Cloned)
    ensures ValidateRepository(repo, isWord).Fail? ==>
      CloneRepo(repo, isWord, clone) == CloneRepo(repo, isWord, other)
  {
  }

  /** An authentication message wins over every other substring. */
  lemma AuthenticationWins(repo: Repository, msg: string)
    requires Contains(msg, "Authentication failed") || Contains(msg, "fatal: could not read")
    ensures ClassifyGitCommandError(repo, msg).status == 401
  {
  }

  /** A clone error, as a decision table read in order: the status, and which
      of the two 404s (the repository's or the ref's) a message gets. */
  lemma ClassificationOrder(repo: Repository, msg: string)
    ensures var e := ClassifyGitCommandError(repo, msg);
      && (e.status == 401 <==> AuthenticationMessage(msg))
      && (e.status == 404 <==>
            (!AuthenticationMessage(msg) &&
             (RepositoryMissingMessage(msg) || (HasRef(repo) && RefMissingMessage(msg)))))
      && (e.status == 400 <==>
            (!AuthenticationMessage(msg) && !RepositoryMissingMessage(msg) &&
             !(HasRef(repo) && RefMissingMessage(msg))))
      && (e == HttpError(404, "Repository not found: " + repo.url) <==>
            (!AuthenticationMessage(msg) && RepositoryMissingMessage(msg)))
      && (HasRef(repo) ==>
            (e == HttpError(404, "Branch or ref '" + repo.ref.value + "' not found in repository") <==>
               (!AuthenticationMessage(msg) && !RepositoryMissingMessage(msg) && RefMissingMessage(msg))))
  {
    var repositoryDetail := "Repository not found: " + repo.url;
    assert repositoryDetail[0] == 'R';
    if HasRef(repo) {
      var refDetail := "Branch or ref '" + repo.ref.value + "' not found in repository";
      assert refDetail[0] == 'B';
    }
  }

  /** A message naming a missing repository also contains "not found"; unless
      it also reports failed authentication, the error names the repository
      and not the ref, because the repository test comes first. */
  lemma RepositoryNotFoundBeatsRef(repo: Repository, msg: string)
    requires Contains(msg, "Repository not found") && !AuthenticationMessage(msg)
    ensures RefMissingMessage(msg)
    ensures ClassifyGitCommandError(repo, msg) == HttpError(404, "Repository not found: " + repo.url)
  {
    var i :| 0 <= i <= |msg| && OccursAt(msg, "Repository not found", i);
    assert msg[i + 11..i + 20] == msg[i..i + 20][11..20];
    assert OccursAt(msg, "not found", i + 11);
  }

  /** Without a ref, a "not found" message that does not name the repository
      is a plain 400. */
  lemma RefMessageNeedsRef(repo: Repository, msg: string)
    requires !HasRef(repo) && !AuthenticationMessage(msg) && !RepositoryMissingMessage(msg)
    ensures ClassifyGitCommandError(repo, msg) == HttpError(400, CloneFailedDetail)
  {
  }

  // ---------------------------------------------------------------------
  // _extract_jhub_apps_config_from_conda_project_config
  // ---------------------------------------------------------------------

  const ConfigPrefix := "JHUB_APP_CONFIG_"
  const EnvironmentKey := "environment"

  /** A value of the extracted configuration: a variable's value, or the
      dictionary stored under "environment". */
  datatype ConfigValue<V> = Setting(value: V) | Environment(variables: map<string, V>)

  /** `k.split("JHUB_APP_CONFIG_")[-1]` */
  function ConfigKey(k: string): string {
    Last(Split(k, ConfigPrefix))
  }

  predicate IsConfigVariable(k: string) {
    StartsWith(k, ConfigPrefix)
  }

  /** The first dict comprehension, over the variables in dict order; a later
      key with the same config key overwrites an earlier one. */
  function AppSettings<V>(items: seq<(string, V)>): map<string, V>
  {
    if items == [] then map[]
    else
      var (k, v) := items[|items| - 1];
      var settings := AppSettings(items[..|items| - 1]);
      if IsConfigVariable(k) then settings[ConfigKey(k) := v] else settings
  }

  /** The second dict comprehension: the other variables, unchanged. */
  function EnvironmentVariables<V>(items: seq<(string, V)>): map<string, V>
  {
    if items == [] then map[]
    else
      var (k, v) := items[|items| - 1];
      var env := EnvironmentVariables(items[..|items| - 1]);
      if IsConfigVariable(k) then env else env[k := v]
  }

  /** `{**jhub_apps_variables, "environment": environment_variables}` */
  function ExtractConfig<V>(items: seq<(string, V)>): map<string, ConfigValue<V>>
  {
    var settings := AppSettings(items);
    (map k | k in settings :: Setting(settings[k]))[EnvironmentKey := Environment(EnvironmentVariables(items))]
  }

  /** The keys of a dictionary's items are distinct. */
  predicate DistinctKeys<V>(items: seq<(string, V)>) {
    forall i, j :: 0 <= i < j < |items| ==> items[i].0 != items[j].0
  }

  /** The config key of a prefixed variable is the text after the last
      occurrence of the prefix: it follows a copy of the prefix at the end of
      the name and holds no copy itself. */
  lemma ConfigKeyAfterLastPrefix(k: string)
    requires IsConfigVariable(k)
    ensures var key := ConfigKey(k);
      && |key| + |ConfigPrefix| <= |k|
      && k[|k| - |key| - |ConfigPrefix|..] == ConfigPrefix + key
      && !Contains(key, ConfigPrefix)
  {
    assert OccursAt(k, ConfigPrefix, 0);
    SplitLastIsTail(k, ConfigPrefix);
    var key := ConfigKey(k);
    assert k[|k| - |key| - |ConfigPrefix|..] == k[|k| - |key| - |ConfigPrefix|..|k| - |key|] + k[|k| - |key|..];
  }

  /** The environment holds exactly the variables without the prefix, with
      their values unchanged. */
  lemma {:induction false} EnvironmentIsUnprefixedPart<V>(items: seq<(string, V)>)
    requires DistinctKeys(items)
    ensures var env := EnvironmentVariables(items);
      && (forall k :: k in env <==> exists i :: 0 <= i < |items| && items[i].0 == k && !IsConfigVariable(k))
      && (forall i :: 0 <= i < |items| && !IsConfigVariable(items[i].0) ==> env[items[i].0] == items[i].1)
  {
    if items != [] {
      var init := items[..|items| - 1];
      EnvironmentIsUnprefixedPart(init);
      assert forall i :: 0 <= i < |init| ==> init[i] == items[i];
    }
  }

  /** Variable `i` is the last of `items` whose config key is `key`. */
  predicate SetsLast<V>(items: seq<(string, V)>, key: string, i: int) {
    && 0 <= i < |items| && IsConfigVariable(items[i].0) && ConfigKey(items[i].0) == key
    && (forall j :: i < j < |items| && IsConfigVariable(items[j].0) ==> ConfigKey(items[j].0) != key)
  }

  /** Every key of the extracted settings is the config key of a prefixed
      variable, and holds the value of the last such variable. */
  lemma {:induction false} SettingsComeFromPrefixedVariables<V>(items: seq<(string, V)>)
    ensures forall key :: key in AppSettings(items) ==>
      exists i :: SetsLast(items, key, i) && AppSettings(items)[key] == items[i].1
  {
    if items != [] {
      var n := |items| - 1;
      var init := items[..n];
      SettingsComeFromPrefixedVariables(init);
      var settings := AppSettings(items);
      forall key | key in settings
        ensures exists i :: SetsLast(items, key, i) && settings[key] == items[i].1
      {
        if IsConfigVariable(items[n].0) && ConfigKey(items[n].0) == key {
          assert SetsLast(items, key, n);
        } else {
          assert key in AppSettings(init);
          var i :| SetsLast(init, key, i) && AppSettings(init)[key] == init[i].1;
          assert init[i] == items[i];
          forall j | i < j < |items| && IsConfigVariable(items[j].0)
            ensures ConfigKey(items[j].0) != key
          {
            if j < n { assert init[j] == items[j]; }
          }
          assert SetsLast(items, key, i);
        }
      }
    }
  }

  /** Every prefixed variable gives a key of the extracted settings. */
  lemma {:induction false} PrefixedVariablesAreSettings<V>(items: seq<(string, V)>)
    ensures forall i :: 0 <= i < |items| && IsConfigVariable(items[i].0) ==> ConfigKey(items[i].0) in AppSettings(items)
  {
    if items != [] {
      var n := |items| - 1;
      var init := items[..n];
      PrefixedVariablesAreSettings(init);
      assert forall i :: 0 <= i < n ==> init[i] == items[i];
    }
  }

  /** The extracted configuration always has "environment", holding the
      environment variables, even when a variable named
      JHUB_APP_CONFIG_environment exists; the other keys are the settings. */
  lemma EnvironmentAlwaysWins<V>(items: seq<(string, V)>)
    ensures EnvironmentKey in ExtractConfig(items)
    ensures ExtractConfig(items)[EnvironmentKey] == Environment(EnvironmentVariables(items))
    ensures forall k :: k != EnvironmentKey ==>
      (k in ExtractConfig(items) <==> k in AppSettings(items))
    ensures forall k :: k != EnvironmentKey && k in AppSettings(items) ==>
      ExtractConfig(items)[k] == Setting(AppSettings(items)[k])
  {
  }
}
