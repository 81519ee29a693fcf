# jhub-apps service: input guards and access decisions in Dafny

This project models three pieces of decision logic of the jhub-apps backend
service (the FastAPI service that launches user apps behind JupyterHub) and
proves their properties.

- **App from a git repository** (`GitRepository`, `app_from_git.dfy`).
  - `ValidateRepository` is the guard against command injection. It checks the URL
    scheme against `https`, `http`, `git` and `ssh`. It refuses shell
    metacharacters in the URL. It checks a truthy ref against the pattern
    `^[\w\-./ ]+$` and against a list of refused substrings.
  - `ClassifyGitCommandError` maps a git error message to an HTTP error through
    an ordered chain of substring tests.
  - `CloneRepo` validates first and only then takes the clone's outcome into
    account.
  - `ExtractConfig` splits a conda-project's variables into app settings
    (`JHUB_APP_CONFIG_*`) and the `"environment"` dictionary.
- **Authentication and authorisation** (`Security`, `security.dfy`).
  - `SelectToken` is the `or` chain over query parameter, bearer header, cookie
    and the deprecated cookie scheme object.
  - `AccessScopes` gives the required scopes: from `JUPYTERHUB_OAUTH_SCOPES`,
    or the default `["access:services"]`.
  - `GetCurrentUser` turns the Hub's answer into a user, a 401 or a 403.
- **CORS settings** (`Cors`, `cors.dfy`). `ConfigureCors` is the imperative
  step that computes `enable_cors` and builds and grows `allowed_origins`. It is
  proved equal to the specification function `AllowedOrigins`.

Python's string built-ins are modelled once, in `Text` (`text.dfy`): `in`,
`startswith`, `find`, `split`, `join`, `strip` and the ASCII part of `lower`.
They come with their own lemmas, for example that joining the result of a
split gives the input back. `Http` (`http.dfy`) holds `HTTPException` as a
value (`HttpError`) and the raise-or-return shapes.

Collaborators outside the modelled code are inputs to the model:
- Python's Unicode `\w` is the parameter `isWord`, and every property holds
  for every such classification.
- `json.loads` is the parameter `decode`.
- The JWT unwrapping and the Hub's `GET /user` are together `Hub.lookUp`, a
  function from token to response.
- `is_jupyterhub_5()` is `Hub.isJupyterHub5`.
- `get_users_and_group_allowed_to_share_with` is `Hub.shareWith`.
- The outcome of `git.Repo.clone_from` is the value `CloneOutcome`.
- The process environment is a `map<string, string>`.

## Model

| member | source | states |
|---|---|---|
| `GitRepository.HasRef` | jhub_apps/service/app_from_git.py:35 | The truthiness of `repository.ref`: present and non-empty. `NoRefSkipsRefChecks` states that a missing and an empty ref are treated alike. |
| `GitRepository.ValidateRepository` | jhub_apps/service/app_from_git.py:16-48 | Validation either passes or raises; every error it raises is a 400. |
| `GitRepository.ValidateIff` | jhub_apps/service/app_from_git.py:16-48 | Validation passes iff the URL is safe and the ref is absent, empty or safe. A safe URL has an allowed scheme and none of semicolon, pipe, ampersand, dollar, backtick, LF or CR. A safe ref is non-empty, has only `\w - . / space`, and none of the refused substrings, `../` included. Both directions are proved. |
| `GitRepository.SchemeCheckedFirst` | jhub_apps/service/app_from_git.py:19-25 | A URL whose scheme is not allowed gets the 400 scheme message, whatever else the URL or the ref contain. |
| `GitRepository.SchemeListText` | jhub_apps/service/app_from_git.py:20-24 | The scheme message lists the schemes as `', '.join` writes them: "https, http, git, ssh". |
| `GitRepository.UrlScheme` | jhub_apps/service/app_from_git.py:19 | `urlparse(url).scheme`. A non-empty scheme starts with a lower-case ASCII letter and holds only scheme characters, none of them upper case. `SchemeOfPlainUrl` pins down its value on plain URLs. |
| `GitRepository.SchemeOfPlainUrl` | jhub_apps/service/app_from_git.py:19 | For a URL `scheme:rest` whose scheme is non-empty lower-case letters, `urlparse` yields that scheme, whatever `rest` holds. |
| `GitRepository.RefPatternMatches` | jhub_apps/service/app_from_git.py:37 | `re.match(r'^[\w\-./ ]+$', ref)`: one or more class characters to the end, or the same followed by one final line feed. `TrailingNewlineRefused` and `AcceptedRefIsSafe` state what follows from it. |
| `GitRepository.UrlCharactersChecked` | jhub_apps/service/app_from_git.py:28-32 | If the scheme is allowed, any of semicolon, pipe, ampersand, dollar, backtick, LF or CR in the URL gives 400 "Invalid characters in repository URL", whatever the ref. |
| `GitRepository.NoRefSkipsRefChecks` | jhub_apps/service/app_from_git.py:35 | A missing or empty ref gives the same verdict as no ref at all. Validity then depends only on the URL. |
| `GitRepository.AcceptedRefIsSafe` | jhub_apps/service/app_from_git.py:37-48 | An accepted non-empty ref has only class characters and contains none of the refused substrings. |
| `GitRepository.TrailingNewlineRefused` | jhub_apps/service/app_from_git.py:37-48 | A safe ref followed by one line feed matches the pattern, yet is refused with "Invalid characters in branch or ref name". |
| `GitRepository.AuthenticationMessage` | jhub_apps/service/app_from_git.py:64 | "Authentication failed" or "fatal: could not read" occurs in the message. `AuthenticationWins` and `ClassificationOrder` state its effect. |
| `GitRepository.RepositoryMissingMessage` | jhub_apps/service/app_from_git.py:69 | "Repository not found" or "does not exist" occurs in the message. `ClassificationOrder` and `RepositoryNotFoundBeatsRef` state its effect. |
| `GitRepository.RefMissingMessage` | jhub_apps/service/app_from_git.py:74 | "unknown revision" or "not found" occurs in the message. `ClassificationOrder` and `RefMessageNeedsRef` state its effect. |
| `GitRepository.ClassifyGitCommandError` | jhub_apps/service/app_from_git.py:59-83 | A git command error always becomes a 400, a 401 or a 404. |
| `GitRepository.ClassificationOrder` | jhub_apps/service/app_from_git.py:64-83 | The decision table in order. 401 iff there is an authentication message. 404 iff there is no authentication message and either a missing-repository message, or a ref together with "unknown revision" or "not found". 400 otherwise. The repository 404 (naming the URL) comes exactly when there is no authentication message and a missing-repository message. With a ref, the ref 404 (naming the ref) comes exactly when neither earlier test holds and a ref-missing message does. |
| `GitRepository.AuthenticationWins` | jhub_apps/service/app_from_git.py:64-68 | "Authentication failed" or "fatal: could not read" gives 401, whatever else the message holds. |
| `GitRepository.RepositoryNotFoundBeatsRef` | jhub_apps/service/app_from_git.py:69-78 | A message containing "Repository not found" also contains "not found". Unless it also reports failed authentication, it gives the repository 404 naming the URL, never the ref 404, whatever the ref. |
| `GitRepository.RefMessageNeedsRef` | jhub_apps/service/app_from_git.py:74-83 | Without a ref, a message that matches neither the authentication nor the repository test is a plain 400. |
| `GitRepository.CloneRepo` | jhub_apps/service/app_from_git.py:51-95 | `_clone_repo`: the validation error if there is one, otherwise the clone's outcome, translated to 401/404/400, 504 or 500. `CloneValidatesFirst` states its properties. |
| `GitRepository.CloneValidatesFirst` | jhub_apps/service/app_from_git.py:51-95 | A repository that fails validation returns that validation error, whatever the clone would do. The result is a success iff validation passes and the clone succeeds. |
| `GitRepository.ConfigKey` | jhub_apps/service/app_from_git.py:149 | `k.split("JHUB_APP_CONFIG_")[-1]`. `ConfigKeyAfterLastPrefix` states what it returns. |
| `GitRepository.AppSettings` | jhub_apps/service/app_from_git.py:148-151 | The first dict comprehension, as a fold over the (key, value) pairs in dict order, where later pairs win. `SettingsComeFromPrefixedVariables` and `PrefixedVariablesAreSettings` state its contents. |
| `GitRepository.EnvironmentVariables` | jhub_apps/service/app_from_git.py:152-155 | The second dict comprehension over the same pairs. `EnvironmentIsUnprefixedPart` states its contents. |
| `GitRepository.ExtractConfig` | jhub_apps/service/app_from_git.py:146-159 | The returned dict: the settings, with "environment" set last. `EnvironmentAlwaysWins` states its contents. |
| `GitRepository.ConfigKeyAfterLastPrefix` | jhub_apps/service/app_from_git.py:149 | The config key of a `JHUB_APP_CONFIG_` variable is the text after a final copy of the prefix, and it contains no copy of the prefix. |
| `GitRepository.SettingsComeFromPrefixedVariables` | jhub_apps/service/app_from_git.py:148-151 | Every settings key is the config key of a variable with the prefix. Its value is that of the last such variable in dict order. |
| `GitRepository.PrefixedVariablesAreSettings` | jhub_apps/service/app_from_git.py:148-151 | Every variable with the prefix contributes its config key to the settings. |
| `GitRepository.EnvironmentIsUnprefixedPart` | jhub_apps/service/app_from_git.py:152-155 | The environment holds exactly the variables without the prefix, with unchanged values. |
| `GitRepository.EnvironmentAlwaysWins` | jhub_apps/service/app_from_git.py:156-159 | "environment" is always present and holds the environment variables, even over a `JHUB_APP_CONFIG_environment` setting. The other keys are exactly the settings. |
| `Security.SelectToken` | jhub_apps/service/security.py:53 | The `or` chain under Python truthiness. `TokenPrecedence` relates it to an independent first-non-empty definition. |
| `Security.Truthy` | jhub_apps/service/security.py:53 | Python truthiness of the values in the chain: `None` and `""` are false, a non-empty string and the scheme object are true. |
| `Security.PyOr` | jhub_apps/service/security.py:53 | Python's `a or b`: `a` when truthy, otherwise `b`. `TokenPrecedence` states what the chain of them yields. |
| `Security.TokenPrecedence` | jhub_apps/service/security.py:53 | The token is the first non-empty value among query parameter, bearer header and cookie. Otherwise it is the deprecated cookie scheme object, so it is never `None`. |
| `Security.MustLoginUnreachable` | jhub_apps/service/security.py:53-58 | The 401 "Must login…" error is never produced, for any input. |
| `Security.AccessScopes` | jhub_apps/service/security.py:38-42 | The module-level `access_scopes`. `AccessScopesDefault` states its default. |
| `Security.AccessScopesDefault` | jhub_apps/service/security.py:38-42 | An unset or empty JUPYTERHUB_OAUTH_SCOPES gives `["access:services"]`. An empty scope list comes only from a value of the variable. |
| `Security.WithSharePermissions` | jhub_apps/service/security.py:82-83 | The share-permissions update on JupyterHub 5. `ReturnedUserIsParsedUser` states its effect on the returned user. |
| `Security.GetCurrentUser` | jhub_apps/service/security.py:47-97 | `get_current_user` on the token, the Hub's answer and the required scopes. The lemmas from `MustLoginUnreachable` to `ReturnedUserIsParsedUser` state its behaviour. |
| `Security.HubErrorIsUnauthorized` | jhub_apps/service/security.py:67-80 | An error response from the Hub gives 401 "Authentication failed. Please try logging in again." and no user. |
| `Security.AccessIffScopesIntersect` | jhub_apps/service/security.py:84-97 | A user is returned iff the Hub returns one and the required and held scopes intersect, in both directions. A known user without a shared scope gets 403, with a message naming the user. |
| `Security.HasAnyScope` | jhub_apps/service/security.py:84 | `any(scope in user.scopes for scope in access_scopes)`. `HasAnyScopeIffIntersect` states it as a set intersection. |
| `Security.HasAnyScopeIffIntersect` | jhub_apps/service/security.py:84 | The `any(...)` scope test holds iff the required and held scope sets intersect, in both directions. |
| `Security.NoRequiredScopesForbidsAll` | jhub_apps/service/security.py:84-97 | With no required scopes, every user the Hub returns gets 403. |
| `Security.ReturnedUserIsParsedUser` | jhub_apps/service/security.py:81-85 | The returned user is the parsed one. On JupyterHub 5 its share permissions are replaced by the Hub's answer. Otherwise it is returned exactly as parsed. |
| `Cors.ConfigureCors` | jhub_apps/service/app.py:54-63 | `enable_cors` is the flag's definition. The origin list built step by step equals `AllowedOrigins` when CORS is on. When CORS is off the source leaves `allowed_origins` unassigned, and the model returns an empty list. |
| `Cors.EnvGet` | jhub_apps/service/app.py:54-61 | `os.environ.get(key, default)`: the variable's value when set, the default otherwise. `CorsOffByDefault`, `PublicHostFirst` and `NoExtraOrigins` state what the defaults give. |
| `Cors.CorsEnabled` | jhub_apps/service/app.py:54 | `enable_cors`. `CorsOffByDefault` and `CorsEnabledIff` state when it holds. |
| `Cors.AllowedOrigins` | jhub_apps/service/app.py:57-63 | `allowed_origins` when CORS is on. `PublicHostFirst`, `NoExtraOrigins`, `ExtraOriginsInOrder` and `DuplicatesAndEmptyPiecesKept` state its contents. |
| `Cors.CorsOffByDefault` | jhub_apps/service/app.py:54 | CORS is off when ENABLE_CORS is unset. |
| `Cors.CorsEnabledIff` | jhub_apps/service/app.py:54 | CORS is on iff ENABLE_CORS spells "true" in any mix of upper and lower case. |
| `Cors.PublicHostFirst` | jhub_apps/service/app.py:57-58 | The first origin is PUBLIC_HOST, or "http://localhost:8000" when that is unset. |
| `Cors.NoExtraOrigins` | jhub_apps/service/app.py:61-63 | An unset or empty CORS_ALLOWED_ORIGINS leaves the list as just the public host. |
| `Cors.ExtraOriginsInOrder` | jhub_apps/service/app.py:61-63 | A non-empty CORS_ALLOWED_ORIGINS adds, in order, one stripped entry per comma-separated piece. That is one more entry than it has commas. The pieces hold no comma and rejoin to the variable. |
| `Cors.DuplicatesAndEmptyPiecesKept` | jhub_apps/service/app.py:63 | For any origin `o` without commas or surrounding whitespace, "o, o," gives the public host followed by `o`, `o` and "". Duplicates and empty pieces are kept. |
| `Text.Contains` | jhub_apps/service/app_from_git.py:64-74 | Python's `sub in s`: some position holds a copy of `sub`. `FindIffContains` relates it to `find`, and `ContainsChar` to one-character membership. |
| `Text.ContainsAny` | jhub_apps/service/app_from_git.py:44 | `any(p in s for p in patterns)`. `ValidateIff` and `AcceptedRefIsSafe` state what the refused-pattern tests then mean. |
| `Text.StartsWith` | jhub_apps/service/app_from_git.py:150 | `s.startswith(prefix)`. `ConfigKeyAfterLastPrefix` and `EnvironmentIsUnprefixedPart` state its role in the config split. |
| `Text.Join` | jhub_apps/service/app_from_git.py:24 | `sep.join(parts)`. `JoinSplit` shows it undoes `split`, and `SchemeListText` computes the scheme list. |
| `Text.Split` | jhub_apps/service/app.py:63 | `str.split(sep)` for a non-empty separator. It always yields at least one piece. `JoinSplit`, `SplitPiecesFree`, `SplitCharCount` and `SplitLastIsTail` state its contents. |
| `Text.JoinSplit` | jhub_apps/service/app.py:63 | `sep.join(s.split(sep)) == s` for a non-empty separator. |
| `Text.SplitCharCount` | jhub_apps/service/app.py:63 | Splitting on one character gives one more piece than the character has occurrences. |
| `Text.SplitLastIsTail` | jhub_apps/service/app_from_git.py:149 | `s.split(sep)[-1]` is a suffix of `s` without `sep`, preceded by `sep` whenever `s` contains it. |
| `Text.StripIsCore` | jhub_apps/service/app.py:63 | `strip()` returns the slice left after removing whitespace from both ends. Only whitespace lies outside it, and neither of its ends is whitespace. |
| `Text.Strip` | jhub_apps/service/app.py:63 | `str.strip()` with no argument. `StripIsCore` states its result. |
| `Text.Lower` | jhub_apps/service/app.py:54 | `str.lower()` on ASCII letters. `CorsEnabledIff` states what the comparison with "true" then means. |
| `Text.Find` | jhub_apps/service/app.py:63 | A position `find` returns is an occurrence of the substring. |
| `Text.FindIsLeftmost` | jhub_apps/service/app.py:63 | The position `split` cuts at is the leftmost occurrence of the separator. No position is returned only when there is no occurrence. |
| `Text.SplitAtFirst` | jhub_apps/service/app.py:63 | The first piece of a split on one character ends at the first copy of that character. |

## Left out

- Cloning itself (`git.Repo.clone_from`), the temporary directory, and the existence check for the config directory (`_check_conda_project_config_directory_exists`) are I/O. The clone's result is the input `CloneOutcome`.
- `_get_conda_project_config_yaml` is left out: it is a foreign library that reads a private attribute. `ExtractConfig` takes the variables as (key, value) pairs in dict order.
- `_load_jhub_app_config_to_pydantic_model` is left out: it reads files, encodes data URLs, and validates with pydantic.
- `_get_app_configuration_from_git` only chains the steps above, so it is left out.
- The `TimeoutError`/`GitError` and generic-exception branches of `_clone_repo` are a constant mapping to 504 and 500, chosen by the exception kind in `CloneOutcome`. Logging is not modelled.
- UrlScheme follows the current CPython `urlsplit` for the scheme only. It strips leading C0 controls and spaces, deletes tab, CR and LF, and requires a leading ASCII letter. Older Python versions without these steps are not modelled. The `ValueError` that `urlsplit` raises for a malformed network location (for example an unbalanced `[` or `]`, a bracketed host that is not a valid IPv6 or IPvFuture address such as `https://[x]`, or a non-ASCII netloc whose NFKC form contains one of `/?#@:`) is not modelled: `UrlScheme` always returns a scheme.
- ValidateRepository: for a URL on which `urlparse` raises `ValueError` (for example `https://[x`), the source raises that exception, which is not an `HTTPException`, and never clones. The model instead goes on to the remaining checks and may return `Pass`, so "passes or raises 400" holds only for URLs that `urlparse` accepts.
- ValidateIff: its "passes if safe" direction holds in the source only for URLs that `urlparse` accepts; see the two lines above.
- ConfigureCors: when CORS is off, the source never assigns `allowed_origins`. The model returns an empty list in that case.
- InRefClass: Python's Unicode `\w` is the parameter `isWord`, because the Unicode character database is not modelled. The proved properties hold for every classification.
- Lower: only ASCII letters are lower-cased. This does not change whether the result equals "true": no non-ASCII character lower-cases to `t`, `r`, `u` or `e`.
- IsSpace lists Python's whitespace characters explicitly, as of the Unicode version CPython uses today.
- The FastAPI `Security` dependency machinery is not modelled. In particular, `auth_by_cookie` keeps `auto_error` on, so FastAPI rejects a request without that cookie before `get_current_user` runs. Here the three sources are plain optional inputs.
- The Hub request, `_get_jhub_token_from_jwt_token`, `is_jupyterhub_5`, `get_users_and_group_allowed_to_share_with` and logging are left out. They come in as the `Hub` value. `Hub.lookUp` is a total function from token to response, so an exception raised by `_get_jhub_token_from_jwt_token` or by the HTTP client, which escapes `get_current_user`, cannot be represented.
- Only `name`, `scopes` and `share_permissions` of the `User` model are modelled. A Hub body that fails to parse as a `User` is not modelled.
- AccessScopes: `json.loads` is the parameter `decode`, assumed to give a list of strings. A malformed value, which fails the module import, is not modelled.
- In app.py, constructing the FastAPI app, registering middleware, mounting static files, including routers, startup/shutdown hooks and logging are left out.
- Spawner command building (`jhub_apps/spawner/spawner_creation.py`) and the frontend form are outside this model.
